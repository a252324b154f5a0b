/**
 * Python dictionaries as association lists. The engine's observable behaviour
 * depends on dictionary insertion order (first-match scans, first-maximum
 * tie-breaks), so a dictionary is a sequence of (key, value) pairs rather than
 * a Dafny `map`. Every dictionary of the engine maps strings to strings.
 */
module Assoc {
  import opened Options

  type AssocList = seq<(string, string)>

  /** The keys in insertion order (Python's iteration order over a dict). */
  function Keys(m: AssocList): (ks: seq<string>)
    ensures |ks| == |m|
    ensures forall i | 0 <= i < |m| :: ks[i] == m[i].0
  {
    seq(|m|, i requires 0 <= i < |m| => m[i].0)
  }

  /** Every key occurs at most once, as in a real dictionary. */
  predicate DistinctKeys(m: AssocList) {
    forall i, j | 0 <= i < j < |m| :: m[i].0 != m[j].0
  }

  /** The position of the first entry whose key is `k`. */
  function IndexOf(m: AssocList, k: string): (r: Option<nat>)
    ensures r.Some? ==> r.value < |m| && m[r.value].0 == k
    ensures r.Some? ==> forall j | 0 <= j < r.value :: m[j].0 != k
    ensures r.None? <==> k !in Keys(m)
  {
    if |m| == 0 then None
    else if m[0].0 == k then Some(0)
    else
      var r := IndexOf(m[1..], k);
      assert Keys(m) == [m[0].0] + Keys(m[1..]);
      if r.Some? then Some(r.value + 1) else None
  }

  /** `d.get(k)`: the value bound to `k`, if any. */
  function Lookup(m: AssocList, k: string): (r: Option<string>)
    ensures r.None? <==> k !in Keys(m)
    ensures r.Some? ==> (k, r.value) in m
  {
    match IndexOf(m, k)
    case Some(i) => Some(m[i].1)
    case None => None
  }

  /** In a dictionary, the value found for the key at position `i` is the one stored there. */
  lemma LookupAt(m: AssocList, i: nat)
    requires DistinctKeys(m)
    requires i < |m|
    ensures Lookup(m, m[i].0) == Some(m[i].1)
  {
    assert m[i].0 in Keys(m);
  }

  /** A lookup only depends on the entries up to the first occurrence of the key. */
  lemma LookupPrefix(m: AssocList, ext: AssocList, k: string)
    requires k in Keys(m)
    ensures Lookup(m + ext, k) == Lookup(m, k)
  {
    var i := IndexOf(m, k).value;
    assert (m + ext)[i] == m[i];
    assert k in Keys(m + ext) by { assert Keys(m + ext)[i] == k; }
    var i' := IndexOf(m + ext, k).value;
    assert i' == i;
  }

  /** Extending a dictionary at its end keeps every existing binding. */
  lemma LookupExtends(m: AssocList, r: AssocList, k: string)
    requires m <= r
    requires k in Keys(m)
    ensures Lookup(r, k) == Lookup(m, k)
  {
    assert r == m + r[|m|..];
    LookupPrefix(m, r[|m|..], k);
  }

  /** Extension at the end is transitive. */
  lemma PrefixTrans(a: AssocList, b: AssocList, c: AssocList)
    requires a <= b && b <= c
    ensures a <= c
  {
    assert c[..|a|] == b[..|a|];
  }

  /** Extending a dictionary at its end keeps every key. */
  lemma KeysGrow(m: AssocList, r: AssocList)
    requires m <= r
    ensures forall k | k in Keys(m) :: k in Keys(r)
  {
    forall k | k in Keys(m) ensures k in Keys(r) {
      var i :| 0 <= i < |m| && Keys(m)[i] == k;
      assert Keys(r)[i] == k;
    }
  }

  /** Appending an entry appends its key. */
  lemma KeysAppend(m: AssocList, k: string, v: string)
    ensures Keys(m + [(k, v)]) == Keys(m) + [k]
  {
  }

  /** A key appended to a dictionary that lacked it is found with its value. */
  lemma LookupAppended(m: AssocList, k: string, v: string)
    requires k !in Keys(m)
    ensures Lookup(m + [(k, v)], k) == Some(v)
  {
    assert Keys(m + [(k, v)])[|m|] == k;
  }

  /** `d[k] = v`: an existing key keeps its position and takes the new value; a new key is appended. */
  function Assign(m: AssocList, k: string, v: string): (r: AssocList)
    ensures Keys(r) == if k in Keys(m) then Keys(m) else Keys(m) + [k]
    ensures forall p | p in r :: p == (k, v) || p in m
  {
    match IndexOf(m, k)
    case Some(i) => m[i := (k, v)]
    case None => m + [(k, v)]
  }

  /** Assigning keeps a dictionary's keys distinct. */
  lemma AssignDistinct(m: AssocList, k: string, v: string)
    requires DistinctKeys(m)
    ensures DistinctKeys(Assign(m, k, v))
  {
    var r := Assign(m, k, v);
    forall i, j | 0 <= i < j < |r| ensures r[i].0 != r[j].0 {
      assert Keys(r)[i] == r[i].0 && Keys(r)[j] == r[j].0;
      if j < |m| {
        assert Keys(m)[i] == m[i].0 && Keys(m)[j] == m[j].0;
      } else {
        assert Keys(m)[i] == m[i].0;
      }
    }
  }

  /** Assigning binds the assigned key to the new value and leaves every other key's binding alone. */
  lemma AssignLookup(m: AssocList, k: string, v: string, k': string)
    requires DistinctKeys(m)
    ensures DistinctKeys(Assign(m, k, v))
    ensures Lookup(Assign(m, k, v), k') == if k' == k then Some(v) else Lookup(m, k')
  {
    AssignDistinct(m, k, v);
    var r := Assign(m, k, v);
    if k' in Keys(r) {
      var p :| 0 <= p < |r| && Keys(r)[p] == k';
      LookupAt(r, p);
      if k' != k {
        assert p < |m| && r[p] == m[p];
        LookupAt(m, p);
      }
    }
  }

  /** The position of the first occurrence of `k` in `ks`. */
  function FirstIndex(ks: seq<string>, k: string): (i: nat)
    requires k in ks
    ensures i < |ks| && ks[i] == k
    ensures forall j | 0 <= j < i :: ks[j] != k
  {
    if ks[0] == k then 0 else 1 + FirstIndex(ks[1..], k)
  }

  lemma FirstIndexAt(ks: seq<string>, k: string, i: nat)
    requires i < |ks| && ks[i] == k
    requires forall j | 0 <= j < i :: ks[j] != k
    ensures FirstIndex(ks, k) == i
  {
    var f := FirstIndex(ks, k);
    if f < i {
      assert false;
    } else if f > i {
      assert false;
    }
  }

  /**
   * The keys of `m` occur in `ks`, and are listed in the order of their first
   * occurrence there.
   */
  predicate InFirstOccurrenceOrder(m: AssocList, ks: seq<string>) {
    && (forall i | 0 <= i < |m| :: m[i].0 in ks)
    && (forall i, j | 0 <= i < j < |m| && m[i].0 in ks && m[j].0 in ks :: FirstIndex(ks, m[i].0) < FirstIndex(ks, m[j].0))
  }

  /** Appending to `ks` keeps the first occurrence of everything already there. */
  lemma FirstIndexExtend(ks: seq<string>, k: string, x: string)
    requires x in ks
    ensures x in ks + [k] && FirstIndex(ks + [k], x) == FirstIndex(ks, x)
  {
    var f := FirstIndex(ks, x);
    assert (ks + [k])[f] == x;
    FirstIndexAt(ks + [k], x, f);
  }

  /** Listing one more key after the others keeps the order. */
  lemma OrderExtend(m: AssocList, ks: seq<string>, k: string)
    requires InFirstOccurrenceOrder(m, ks)
    ensures InFirstOccurrenceOrder(m, ks + [k])
  {
    forall x | x in ks ensures x in ks + [k] && FirstIndex(ks + [k], x) == FirstIndex(ks, x) {
      FirstIndexExtend(ks, k, x);
    }
  }

  /**
   * `d[k] = v` where `ks` lists the keys assigned so far: an existing key keeps
   * its place, a new key goes last, so the order of first assignment is kept.
   */
  lemma AssignOrder(m: AssocList, ks: seq<string>, k: string, v: string)
    requires InFirstOccurrenceOrder(m, ks)
    requires k in Keys(m) || k !in ks
    ensures InFirstOccurrenceOrder(Assign(m, k, v), ks + [k])
  {
    forall x | x in ks ensures x in ks + [k] && FirstIndex(ks + [k], x) == FirstIndex(ks, x) {
      FirstIndexExtend(ks, k, x);
    }
    if k in Keys(m) {
      AssignOrderExisting(m, ks, k, v);
    } else {
      AssignOrderNew(m, ks, k, v);
    }
  }

  lemma AssignOrderExisting(m: AssocList, ks: seq<string>, k: string, v: string)
    requires InFirstOccurrenceOrder(m, ks)
    requires k in Keys(m)
    requires forall x | x in ks :: x in ks + [k] && FirstIndex(ks + [k], x) == FirstIndex(ks, x)
    ensures InFirstOccurrenceOrder(Assign(m, k, v), ks + [k])
  {
    var r := Assign(m, k, v);
    assert |r| == |m|;
    forall i | 0 <= i < |r| ensures r[i].0 == m[i].0 {
      assert Keys(r)[i] == r[i].0 && Keys(m)[i] == m[i].0;
    }
  }

  lemma AssignOrderNew(m: AssocList, ks: seq<string>, k: string, v: string)
    requires InFirstOccurrenceOrder(m, ks)
    requires k !in Keys(m) && k !in ks
    requires forall x | x in ks :: x in ks + [k] && FirstIndex(ks + [k], x) == FirstIndex(ks, x)
    ensures InFirstOccurrenceOrder(Assign(m, k, v), ks + [k])
  {
    var r := Assign(m, k, v);
    var ks' := ks + [k];
    assert r == m + [(k, v)];
    FirstIndexAt(ks', k, |ks|);
    forall i | 0 <= i < |m| ensures FirstIndex(ks', r[i].0) < FirstIndex(ks', k) {
      assert r[i] == m[i];
    }
  }

  /** `if k not in d: d[k] = v`: the dictionary only grows at its end, and never changes a bound key. */
  function InsertIfAbsent(m: AssocList, k: string, v: string): (r: AssocList)
    ensures m <= r
    ensures k in Keys(r)
    ensures k in Keys(m) ==> r == m
    ensures k !in Keys(m) ==> r == m + [(k, v)]
    ensures DistinctKeys(m) ==> DistinctKeys(r)
  {
    if k in Keys(m) then m
    else
      assert Keys(m + [(k, v)])[|m|] == k;
      assert forall i | 0 <= i < |m| :: Keys(m)[i] == m[i].0;
      m + [(k, v)]
  }
  /** Inserting `k` adds no other key. */
  lemma InsertIfAbsentOther(m: AssocList, k: string, v: string, k': string)
    requires k' != k && k' !in Keys(m)
    ensures k' !in Keys(InsertIfAbsent(m, k, v))
  {
    if k !in Keys(m) {
      KeysAppend(m, k, v);
    }
  }


  /** The position of the first entry, in insertion order, whose key satisfies `p`. */
  function FirstKeyWhere(m: AssocList, p: string -> bool): (r: Option<nat>)
    ensures r.Some? ==> r.value < |m| && p(m[r.value].0)
    ensures r.Some? ==> forall j | 0 <= j < r.value :: !p(m[j].0)
    ensures r.None? <==> forall j | 0 <= j < |m| :: !p(m[j].0)
  {
    if |m| == 0 then None
    else if p(m[0].0) then Some(0)
    else
      var r := FirstKeyWhere(m[1..], p);
      assert forall j | 1 <= j < |m| :: m[j] == m[1..][j - 1];
      if r.Some? then Some(r.value + 1) else None
  }

  /** The first key satisfying `p` is the one `FirstKeyWhere` finds. */
  lemma FirstKeyWhereIsFirst(m: AssocList, p: string -> bool)
    ensures forall j | 0 <= j < |m| && p(m[j].0) && (forall i | 0 <= i < j :: !p(m[i].0)) ::
              FirstKeyWhere(m, p) == Some(j)
  {
    forall j | 0 <= j < |m| && p(m[j].0) && (forall i | 0 <= i < j :: !p(m[i].0))
      ensures FirstKeyWhere(m, p) == Some(j)
    {
      FirstKeyWhereAt(m, p, j);
    }
  }

  lemma FirstKeyWhereAt(m: AssocList, p: string -> bool, j: nat)
    requires j < |m| && p(m[j].0)
    requires forall i | 0 <= i < j :: !p(m[i].0)
    ensures FirstKeyWhere(m, p) == Some(j)
  {
    var r := FirstKeyWhere(m, p);
    assert r.Some?;
    var k := r.value;
    if k < j {
      assert false;
    } else if k > j {
      assert false;
    }
  }
}
