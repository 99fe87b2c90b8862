/**
 * Grouping of DICOM slice records into acquisition timepoints
 * (`group_by_timepoint` in dcm_nii.py).
 *
 * A record is the metadata of one slice file together with the path of that
 * file. Each record gets a temporal key; records with equal keys form one
 * timepoint group, and the groups are kept in the order in which their keys
 * first appear, as a Python dict keeps its insertion order.
 */
module Timepoints {

  /** Attribute names in the DICOM dataset that carry the time of a slice. */
  const TemporalPositionIdentifier: string := "TemporalPositionIdentifier"
  const AcquisitionTime: string := "AcquisitionTime"

  /** A metadata value, already converted from its DICOM text to a number. */
  datatype Value = IntValue(n: int) | RealValue(x: real)

  /** The attributes present in one slice's dataset. */
  type Metadata = map<string, Value>

  /** One loaded slice: its dataset and the path of its file. */
  datatype Record = Record(metadata: Metadata, path: string)

  /**
   * A temporal key. Python dict keys `1` and `1.0` are the same key, so both
   * integer identifiers and acquisition times are exact reals here.
   */
  type Key = real

  /** The timepoint dict: its keys in insertion order and the group of each key. */
  datatype Groups = Groups(order: seq<Key>, members: map<Key, seq<Record>>)

  predicate Distinct<T(==)>(s: seq<T>)
  {
    forall i, j :: 0 <= i < j < |s| ==> s[i] != s[j]
  }

  /** Python's `int()` on a number: truncation toward zero. */
  function Truncate(x: real): (n: int)
    ensures 0.0 <= x ==> n as real <= x < n as real + 1.0
    ensures x < 0.0 ==> n as real - 1.0 < x <= n as real
  {
    if 0.0 <= x then x.Floor else -((-x).Floor)
  }

  /** `int(v)`: an integer is kept; a real is truncated toward zero. */
  function IntOf(v: Value): (n: int)
    ensures v.IntValue? ==> n == v.n
    ensures 0.0 <= RealOf(v) ==> n as real <= RealOf(v) < n as real + 1.0
    ensures RealOf(v) < 0.0 ==> n as real - 1.0 < RealOf(v) <= n as real
  {
    match v
    case IntValue(n) => n
    case RealValue(x) => Truncate(x)
  }

  /** `float(v)`: exact on both kinds of value (double rounding is not modelled). */
  function RealOf(v: Value): (x: real)
    ensures v.IntValue? ==> x == v.n as real
    ensures v.RealValue? ==> x == v.x
  {
    match v
    case IntValue(n) => n as real
    case RealValue(x) => x
  }

  /**
   * The temporal key of a slice: the temporal position identifier when the
   * dataset has one, else the acquisition time, else the sentinel 0.
   */
  function DeriveKey(md: Metadata): (k: Key)
    ensures TemporalPositionIdentifier in md ==> k == IntOf(md[TemporalPositionIdentifier]) as real
    ensures TemporalPositionIdentifier !in md && AcquisitionTime in md ==> k == RealOf(md[AcquisitionTime])
    ensures TemporalPositionIdentifier !in md && AcquisitionTime !in md ==> k == 0.0
  {
    if TemporalPositionIdentifier in md then IntOf(md[TemporalPositionIdentifier]) as real
    else if AcquisitionTime in md then RealOf(md[AcquisitionTime])
    else 0.0
  }

  /**
   * As Python dict keys, an identifier `n`, an acquisition time equal to `n`
   * and (for `n == 0`) a dataset with neither field all land in one group.
   */
  lemma KeysOfEqualValuesCollide(n: int)
    ensures DeriveKey(map[TemporalPositionIdentifier := IntValue(n)])
         == DeriveKey(map[AcquisitionTime := RealValue(n as real)])
    ensures DeriveKey(map[TemporalPositionIdentifier := IntValue(0)]) == DeriveKey(map[])
  {
  }

  /**
   * The identifier outranks the acquisition time: once a dataset has a
   * temporal position identifier, adding, changing or dropping its
   * acquisition time leaves the key unchanged.
   */
  lemma IdentifierOutranksAcquisitionTime(md: Metadata, v: Value)
    requires TemporalPositionIdentifier in md
    ensures DeriveKey(md[AcquisitionTime := v]) == DeriveKey(md)
    ensures DeriveKey(md - {AcquisitionTime}) == DeriveKey(md)
  {
  }

  /** The key reads only the two time attributes: datasets that agree on them share a key. */
  lemma KeyReadsOnlyTimeAttributes(md: Metadata, md': Metadata)
    requires TemporalPositionIdentifier in md <==> TemporalPositionIdentifier in md'
    requires TemporalPositionIdentifier in md ==> md[TemporalPositionIdentifier] == md'[TemporalPositionIdentifier]
    requires AcquisitionTime in md <==> AcquisitionTime in md'
    requires AcquisitionTime in md ==> md[AcquisitionTime] == md'[AcquisitionTime]
    ensures DeriveKey(md) == DeriveKey(md')
  {
  }

  function KeyOf(r: Record): Key
  {
    DeriveKey(r.metadata)
  }

  /**
   * The distinct keys of `rs` in order of first appearance: the key order of
   * the dict that grouping builds.
   */
  function KeyOrder(rs: seq<Record>): (ks: seq<Key>)
    ensures rs != [] ==> |ks| > 0
  {
    if rs == [] then []
    else
      var ks := KeyOrder(rs[..|rs| - 1]);
      var k := KeyOf(rs[|rs| - 1]);
      if k in ks then ks else ks + [k]
  }

  /** The records of `rs` whose key is `k`, in input order. */
  function Members(rs: seq<Record>, k: Key): seq<Record>
  {
    if rs == [] then []
    else
      var prev := Members(rs[..|rs| - 1], k);
      if KeyOf(rs[|rs| - 1]) == k then prev + [rs[|rs| - 1]] else prev
  }

  /** The timepoint dict that grouping `rs` produces. */
  function Grouping(rs: seq<Record>): Groups
  {
    var ks := KeyOrder(rs);
    Groups(ks, map k | k in ks :: Members(rs, k))
  }

  lemma MembersSnoc(rs: seq<Record>, r: Record, k: Key)
    ensures Members(rs + [r], k) == if KeyOf(r) == k then Members(rs, k) + [r] else Members(rs, k)
  {
    assert (rs + [r])[..|rs|] == rs;
  }

  lemma KeyOrderSnoc(rs: seq<Record>, r: Record)
    ensures KeyOrder(rs + [r]) == if KeyOf(r) in KeyOrder(rs) then KeyOrder(rs) else KeyOrder(rs) + [KeyOf(r)]
  {
    assert (rs + [r])[..|rs|] == rs;
  }

  /**
   * The key order lists each key once, and lists exactly the keys that some
   * record carries.
   */
  lemma {:induction false} KeyOrderIsDistinctKeys(rs: seq<Record>)
    ensures Distinct(KeyOrder(rs))
    ensures forall k :: k in KeyOrder(rs) <==> exists r :: r in rs && KeyOf(r) == k
  {
    if rs != [] {
      var prefix, last := rs[..|rs| - 1], rs[|rs| - 1];
      assert rs == prefix + [last];
      KeyOrderIsDistinctKeys(prefix);
      KeyOrderSnoc(prefix, last);
    }
  }

  /** A key that no record carries has an empty group. */
  lemma {:induction false} MembersOfAbsentKey(rs: seq<Record>, k: Key)
    requires k !in KeyOrder(rs)
    ensures Members(rs, k) == []
  {
    if rs != [] {
      var prefix := rs[..|rs| - 1];
      assert rs == prefix + [rs[|rs| - 1]];
      KeyOrderSnoc(prefix, rs[|rs| - 1]);
      MembersOfAbsentKey(prefix, k);
    }
  }

  /** `group_by_timepoint`: one pass that appends each record to its key's list. */
  method GroupByTimepoint(records: seq<Record>) returns (g: Groups)
    ensures g == Grouping(records)
  {
    var order: seq<Key> := [];
    var members: map<Key, seq<Record>> := map[];
    for i := 0 to |records|
      invariant order == KeyOrder(records[..i])
      invariant forall k :: k in members <==> k in order
      invariant forall k :: k in members ==> members[k] == Members(records[..i], k)
    {
      var r := records[i];
      var t := DeriveKey(r.metadata);
      ghost var before := members;
      var current := if t in members then members[t] else [];
      if t !in members {
        order := order + [t];
      }
      members := members[t := current + [r]];
      assert records[..i + 1] == records[..i] + [r];
      KeyOrderSnoc(records[..i], r);
      forall k | k in members
        ensures members[k] == Members(records[..i + 1], k)
      {
        MembersSnoc(records[..i], r, k);
        if k == t && t !in before {
          MembersOfAbsentKey(records[..i], t);
        }
      }
    }
    assert records[..|records|] == records;
    g := Groups(order, members);
    ghost var spec := map k | k in order :: Members(records, k);
    forall k
      ensures k in members <==> k in spec
    {
    }
    assert members.Keys == spec.Keys;
    assert members == spec;
  }

  // Properties of the grouping

  lemma {:induction false} MembersMultiplicity(rs: seq<Record>, k: Key, r: Record)
    ensures multiset(Members(rs, k))[r] == if KeyOf(r) == k then multiset(rs)[r] else 0
  {
    if rs != [] {
      var prefix := rs[..|rs| - 1];
      assert rs == prefix + [rs[|rs| - 1]];
      MembersMultiplicity(prefix, k, r);
    }
  }

  /**
   * Every record lies in the group of its own key, with all its copies, and a
   * group holds only records of its key: the groups partition the input.
   */
  lemma GroupingPartitions(rs: seq<Record>)
    ensures forall k, r :: k in Grouping(rs).members && r in Grouping(rs).members[k] ==> KeyOf(r) == k
    ensures forall r :: r in rs ==>
      KeyOf(r) in Grouping(rs).members && multiset(Grouping(rs).members[KeyOf(r)])[r] == multiset(rs)[r]
  {
    var g := Grouping(rs);
    KeyOrderIsDistinctKeys(rs);
    forall k, r | k in g.members && r in g.members[k]
      ensures KeyOf(r) == k
    {
      MembersMultiplicity(rs, k, r);
    }
    forall r | r in rs
      ensures KeyOf(r) in g.members && multiset(g.members[KeyOf(r)])[r] == multiset(rs)[r]
    {
      MembersMultiplicity(rs, KeyOf(r), r);
    }
  }

  /**
   * There is one group per key that some record carries, listed once in the
   * key order; every group is non-empty.
   */
  lemma GroupsAreNonEmpty(rs: seq<Record>)
    ensures Distinct(Grouping(rs).order)
    ensures forall k :: k in Grouping(rs).members <==> k in Grouping(rs).order
    ensures forall k :: k in Grouping(rs).members <==> exists r :: r in rs && KeyOf(r) == k
    ensures forall k :: k in Grouping(rs).members ==> |Grouping(rs).members[k]| > 0
  {
    var g := Grouping(rs);
    KeyOrderIsDistinctKeys(rs);
    forall k | k in g.members
      ensures |g.members[k]| > 0
    {
      var r :| r in rs && KeyOf(r) == k;
      MembersMultiplicity(rs, k, r);
    }
  }

  /**
   * A group lists exactly the records with its key, at strictly increasing
   * positions of the input: grouping keeps the load order within a group.
   */
  lemma {:induction false} GroupKeepsInputOrder(rs: seq<Record>, k: Key) returns (idx: seq<int>)
    ensures |idx| == |Members(rs, k)|
    ensures forall i :: 0 <= i < |idx| ==> 0 <= idx[i] < |rs| && rs[idx[i]] == Members(rs, k)[i]
    ensures forall i, j :: 0 <= i < j < |idx| ==> idx[i] < idx[j]
    ensures forall p :: 0 <= p < |rs| && KeyOf(rs[p]) == k ==> p in idx
    ensures forall i :: 0 <= i < |idx| ==> KeyOf(Members(rs, k)[i]) == k
  {
    if rs == [] {
      idx := [];
    } else {
      var n := |rs| - 1;
      var prefix := rs[..n];
      assert rs == prefix + [rs[n]];
      idx := GroupKeepsInputOrder(prefix, k);
      if KeyOf(rs[n]) == k {
        idx := idx + [n];
      }
    }
  }

  /** The sum of the sizes of the groups of `ks`. */
  function TotalSize(ks: seq<Key>, rs: seq<Record>): nat
  {
    if ks == [] then 0 else TotalSize(ks[..|ks| - 1], rs) + |Members(rs, ks[|ks| - 1])|
  }

  lemma {:induction false} TotalSizeSnoc(ks: seq<Key>, rs: seq<Record>, r: Record)
    requires Distinct(ks)
    ensures TotalSize(ks, rs + [r]) == TotalSize(ks, rs) + (if KeyOf(r) in ks then 1 else 0)
  {
    if ks != [] {
      var front := ks[..|ks| - 1];
      assert ks == front + [ks[|ks| - 1]];
      TotalSizeSnoc(front, rs, r);
      MembersSnoc(rs, r, ks[|ks| - 1]);
    }
  }

  /** The group sizes add up to the number of records. */
  lemma {:induction false} GroupSizesAddUp(rs: seq<Record>)
    ensures TotalSize(Grouping(rs).order, rs) == |rs|
  {
    if rs != [] {
      var n := |rs| - 1;
      var prefix, r := rs[..n], rs[n];
      assert rs == prefix + [r];
      GroupSizesAddUp(prefix);
      KeyOrderIsDistinctKeys(prefix);
      KeyOrderSnoc(prefix, r);
      var ks := KeyOrder(prefix);
      TotalSizeSnoc(ks, prefix, r);
      if KeyOf(r) !in ks {
        assert (ks + [KeyOf(r)])[..|ks|] == ks;
        MembersSnoc(prefix, r, KeyOf(r));
        MembersOfAbsentKey(prefix, KeyOf(r));
      }
    }
  }

  /** Some record before position `q` of `rs` has key `k`. */
  predicate PrecededBy(rs: seq<Record>, q: int, k: Key)
    requires q <= |rs|
  {
    exists p :: 0 <= p < q && KeyOf(rs[p]) == k
  }

  lemma PrecededByExtends(prefix: seq<Record>, r: Record, q: int, k: Key)
    requires q <= |prefix|
    requires PrecededBy(prefix, q, k)
    ensures PrecededBy(prefix + [r], q, k)
  {
    var p :| 0 <= p < q && KeyOf(prefix[p]) == k;
    assert (prefix + [r])[p] == prefix[p];
  }

  lemma PrecededByLast(prefix: seq<Record>, r: Record, k: Key)
    requires k in KeyOrder(prefix)
    ensures PrecededBy(prefix + [r], |prefix|, k)
  {
    KeyOrderIsDistinctKeys(prefix);
    var x :| x in prefix && KeyOf(x) == k;
    var p :| 0 <= p < |prefix| && prefix[p] == x;
    assert (prefix + [r])[p] == prefix[p];
  }

  /**
   * Groups are ordered by first appearance: every record of a later group is
   * preceded by some record of each earlier group.
   */
  lemma {:induction false} KeysInFirstAppearanceOrder(rs: seq<Record>)
    ensures forall i, j, q :: 0 <= i < j < |KeyOrder(rs)| && 0 <= q < |rs| && KeyOf(rs[q]) == KeyOrder(rs)[j] ==>
      PrecededBy(rs, q, KeyOrder(rs)[i])
  {
    if rs != [] {
      var n := |rs| - 1;
      var prefix, r := rs[..n], rs[n];
      assert rs == prefix + [r];
      KeysInFirstAppearanceOrder(prefix);
      KeyOrderIsDistinctKeys(prefix);
      KeyOrderSnoc(prefix, r);
      var ks, ks' := KeyOrder(prefix), KeyOrder(rs);
      forall i, j, q | 0 <= i < j < |ks'| && 0 <= q < |rs| && KeyOf(rs[q]) == ks'[j]
        ensures PrecededBy(rs, q, ks'[i])
      {
        assert ks'[i] == ks[i];
        if q < n {
          assert rs[q] == prefix[q];
          if j < |ks| {
            PrecededByExtends(prefix, r, q, ks[i]);
          } else {
            assert false;
          }
        } else {
          PrecededByLast(prefix, r, ks[i]);
        }
      }
    }
  }
}
