/** The sensor-info worker: it republishes only when the platform's sensors changed. */
module SensorCache {
  datatype Info<Pose> = Info(id: int, sensorType: int, impactType: int, pose: Pose, refreshFreq: real)

  /** Sensor infos by id; every info is stored under its own id. */
  ghost predicate KeyedById<Pose>(m: map<int, Info<Pose>>) {
    forall k :: k in m ==> m[k].id == k
  }

  /** What is compared of two infos; the refresh frequency is not. */
  predicate SameInfo<Pose>(samePose: (Pose, Pose) -> bool, a: Info<Pose>, b: Info<Pose>) {
    a.sensorType == b.sensorType && a.impactType == b.impactType && samePose(a.pose, b.pose)
  }

  /** The comparison, which scans the first map only. */
  predicate AsTheSame<Pose>(samePose: (Pose, Pose) -> bool, a: map<int, Info<Pose>>, b: map<int, Info<Pose>>) {
    && |a| == |b|
    && forall k :: k in a ==>
         && a[k].id in b
         && SameInfo(samePose, a[k], b[a[k].id])
  }

  ghost predicate IsEquivalence<T(!new)>(same: (T, T) -> bool) {
    && (forall x :: same(x, x))
    && (forall x, y :: same(x, y) ==> same(y, x))
    && (forall x, y, z :: same(x, y) && same(y, z) ==> same(x, z))
  }

  lemma SubsetOfEqualSize<T>(a: set<T>, b: set<T>)
    requires a <= b && |a| == |b|
    ensures a == b
  {
    assert b == a + (b - a);
    assert |b - a| == 0;
  }

  /** The one-sided scan with the size test means: same ids, and pairwise the same infos. */
  lemma AsTheSameMeans<Pose(!new)>(samePose: (Pose, Pose) -> bool, a: map<int, Info<Pose>>, b: map<int, Info<Pose>>)
    requires KeyedById(a) && KeyedById(b)
    ensures AsTheSame(samePose, a, b) <==>
              && a.Keys == b.Keys
              && forall k :: k in a && k in b ==>
                   && a[k].sensorType == b[k].sensorType && a[k].impactType == b[k].impactType
                   && samePose(a[k].pose, b[k].pose)
  {
    assert |a| == |a.Keys| && |b| == |b.Keys|;
    if AsTheSame(samePose, a, b) {
      forall k | k in a.Keys
        ensures k in b.Keys
      {
        assert a[k].id == k;
      }
      SubsetOfEqualSize(a.Keys, b.Keys);
    }
  }

  /** On maps keyed by id the comparison is an equivalence, provided the pose comparison is one. */
  lemma AsTheSameIsEquivalence<Pose(!new)>(samePose: (Pose, Pose) -> bool,
                                           a: map<int, Info<Pose>>, b: map<int, Info<Pose>>, c: map<int, Info<Pose>>)
    requires IsEquivalence(samePose) && KeyedById(a) && KeyedById(b) && KeyedById(c)
    ensures AsTheSame(samePose, a, a)
    ensures AsTheSame(samePose, a, b) ==> AsTheSame(samePose, b, a)
    ensures AsTheSame(samePose, a, b) && AsTheSame(samePose, b, c) ==> AsTheSame(samePose, a, c)
  {
    AsTheSameMeans(samePose, a, b);
    AsTheSameMeans(samePose, b, a);
    AsTheSameMeans(samePose, b, c);
    AsTheSameMeans(samePose, a, c);
  }

  /** The map built from the platform's list: the first info of each id wins, as map insertion does. */
  function FromList<Pose>(infos: seq<Info<Pose>>): (m: map<int, Info<Pose>>)
    ensures forall k :: k in m ==> m[k].id == k && m[k] in infos
    ensures forall i :: 0 <= i < |infos| ==> infos[i].id in m
  {
    if infos == [] then
      map[]
    else
      var before, last := FromList(infos[..|infos| - 1]), infos[|infos| - 1];
      if last.id in before then before else before[last.id := last]
  }

  /** Of several infos with one id the first is kept. */
  lemma {:induction false} FirstInfoWins<Pose>(infos: seq<Info<Pose>>, i: nat)
    requires i < |infos| && forall j :: 0 <= j < i ==> infos[j].id != infos[i].id
    ensures infos[i].id in FromList(infos) && FromList(infos)[infos[i].id] == infos[i]
  {
    var init := infos[..|infos| - 1];
    if i < |init| {
      FirstInfoWins(init, i);
    } else {
      assert forall k :: 0 <= k < |init| ==> init[k] == infos[k];
    }
  }

  /** The elementwise conversion of a map. */
  function Converted<K, V, Ros>(conv: V -> Ros, m: map<K, V>): map<K, Ros> {
    map k | k in m :: conv(m[k])
  }

  /** The cached sensors after a series of answers, each a list or a failure. */
  function After<Pose>(samePose: (Pose, Pose) -> bool, answers: seq<(bool, seq<Info<Pose>>)>): (m: map<int, Info<Pose>>)
    ensures KeyedById(m)
  {
    if answers == [] then
      map[]
    else
      var before, (supplied, infos) := After(samePose, answers[..|answers| - 1]), answers[|answers| - 1];
      if supplied && !AsTheSame(samePose, before, FromList(infos)) then FromList(infos) else before
  }

  /** After any answers the cache is the same, up to the comparison, as the last list supplied. */
  lemma {:induction false} CacheTracksPlatform<Pose(!new)>(samePose: (Pose, Pose) -> bool, answers: seq<(bool, seq<Info<Pose>>)>,
                                                          last: nat)
    requires IsEquivalence(samePose) && last < |answers| && answers[last].0
    requires forall i :: last < i < |answers| ==> !answers[i].0
    ensures AsTheSame(samePose, After(samePose, answers), FromList(answers[last].1))
  {
    var init := answers[..|answers| - 1];
    if last < |answers| - 1 {
      CacheTracksPlatform(samePose, init, last);
    } else {
      var received := FromList(answers[last].1);
      AsTheSameIsEquivalence(samePose, received, received, received);
    }
  }

  /** The map a listing is stored in, filled by insertion, which keeps an id that is already there. */
  method InsertAll<Pose>(infos: seq<Info<Pose>>) returns (m: map<int, Info<Pose>>)
    ensures m == FromList(infos)
  {
    m := map[];
    var i := 0;
    while i < |infos|
      invariant 0 <= i <= |infos|
      invariant m == FromList(infos[..i])
    {
      assert infos[..i + 1][..i] == infos[..i];
      if infos[i].id !in m {
        m := m[infos[i].id := infos[i]];
      }
      i := i + 1;
    }
    assert infos[..|infos|] == infos;
  }

  /** The conversion of any map, one entry after the other, in whatever order the keys come. */
  method ToRos<K(==), V, Ros>(conv: V -> Ros, m: map<K, V>) returns (ros: map<K, Ros>)
    ensures ros == Converted(conv, m)
  {
    ros := map[];
    var left := m.Keys;
    while left != {}
      invariant left <= m.Keys && ros.Keys == m.Keys - left
      invariant forall k :: k in ros ==> ros[k] == conv(m[k])
      decreases |left|
    {
      var k :| k in left;
      ros := ros[k := conv(m[k])];
      left := left - {k};
    }
  }

  /** The shared state: the sensors last accepted, and their converted form. */
  class Cache<Pose, Ros> {
    const samePose: (Pose, Pose) -> bool
    const conv: Info<Pose> -> Ros
    var sensorsInfo: map<int, Info<Pose>>
    var rosInfo: map<int, Ros>
    ghost var answers: seq<(bool, seq<Info<Pose>>)>

    ghost predicate Valid()
      reads this
    {
      && sensorsInfo == After(samePose, answers)
      && rosInfo == Converted(conv, sensorsInfo)
    }

    constructor (samePose: (Pose, Pose) -> bool, conv: Info<Pose> -> Ros)
      ensures Valid() && answers == []
      ensures this.samePose == samePose && this.conv == conv
    {
      this.samePose := samePose;
      this.conv := conv;
      sensorsInfo := map[];
      rosInfo := map[];
      answers := [];
    }

    /** One perform: fails, changes nothing, or stores the new sensors and publishes their conversion. */
    method DoPerform(supplied: bool, infos: seq<Info<Pose>>) returns (published: bool)
      requires Valid()
      modifies this
      ensures Valid() && answers == old(answers) + [(supplied, infos)]
      ensures published <==> supplied && !AsTheSame(samePose, old(sensorsInfo), FromList(infos))
      ensures sensorsInfo == if published then FromList(infos) else old(sensorsInfo)
      ensures rosInfo.Keys == sensorsInfo.Keys && forall k :: k in sensorsInfo ==> rosInfo[k] == conv(sensorsInfo[k])
    {
      ghost var all := answers + [(supplied, infos)];
      assert all[..|all| - 1] == answers;
      answers := all;
      if !supplied {
        return false;
      }
      var received := InsertAll(infos);
      if AsTheSame(samePose, sensorsInfo, received) {
        return false;
      }
      sensorsInfo := received;
      rosInfo := ToRos(conv, sensorsInfo);
      return true;
    }
  }
}
