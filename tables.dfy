/** Python dictionaries from strings to strings, as the interpreter uses
    them for its define and variable tables: a sequence of entries in
    insertion order. Assigning to a key that is already present keeps the
    key at its original position, which is what makes the order of the
    substitution passes well defined. */
module Tables {

  import opened Outcomes

  datatype Entry = Entry(key: string, value: string)

  type Table = seq<Entry>

  /** Keys in insertion order. */
  function Keys(t: Table): (ks: seq<string>)
    ensures |ks| == |t| && forall i :: 0 <= i < |t| ==> ks[i] == t[i].key
  {
    seq(|t|, i requires 0 <= i < |t| => t[i].key)
  }

  /** A dictionary never holds a key twice. */
  ghost predicate Distinct(t: Table)
  {
    forall i, j :: 0 <= i < j < |t| ==> t[i].key != t[j].key
  }

  /** Position of the entry for `k`, or -1. */
  function IndexOf(t: Table, k: string): (r: int)
    ensures -1 <= r < |t|
    ensures r >= 0 ==> t[r].key == k && forall i :: 0 <= i < r ==> t[i].key != k
    ensures r == -1 ==> forall i :: 0 <= i < |t| ==> t[i].key != k
    decreases |t|
  {
    if |t| == 0 then -1
    else if t[0].key == k then 0
    else
      var r := IndexOf(t[1..], k);
      if r == -1 then -1 else r + 1
  }

  /** `k in d` */
  predicate HasKey(t: Table, k: string)
  {
    IndexOf(t, k) >= 0
  }

  /** `d.get(k)` */
  function Get(t: Table, k: string): (r: Option<string>)
    ensures r.Some? <==> HasKey(t, k)
    ensures r.Some? ==> exists i :: 0 <= i < |t| && t[i] == Entry(k, r.value)
  {
    var i := IndexOf(t, k);
    if i >= 0 then Some(t[i].value) else None
  }

  /** `d.get(k, default)` */
  function GetOr(t: Table, k: string, default: string): (r: string)
    ensures HasKey(t, k) ==> Some(r) == Get(t, k)
    ensures !HasKey(t, k) ==> r == default
  {
    var i := IndexOf(t, k);
    if i >= 0 then t[i].value else default
  }

  /** `d[k] = v`: an existing key keeps its position and takes the new value;
      a new key goes at the end. No other entry changes. */
  function Put(t: Table, k: string, v: string): (r: Table)
    ensures HasKey(t, k) ==> |r| == |t| && Keys(r) == Keys(t)
    ensures !HasKey(t, k) ==> r == t + [Entry(k, v)]
    ensures Get(r, k) == Some(v)
    ensures forall k' :: k' != k ==> Get(r, k') == Get(t, k')
    ensures forall k' :: HasKey(t, k') ==> HasKey(r, k')
  {
    var i := IndexOf(t, k);
    if i >= 0 then
      var r := t[i := Entry(k, v)];
      SameKeysSameIndex(t, r, k);
      assert forall k' :: k' != k ==> IndexOf(r, k') == IndexOf(t, k') by {
        forall k' | k' != k ensures IndexOf(r, k') == IndexOf(t, k') {
          SameKeysSameIndex(t, r, k');
        }
      }
      r
    else
      var r := t + [Entry(k, v)];
      assert r[|t|].key == k;
      assert IndexOf(r, k) == |t|;
      assert forall k' :: k' != k ==> IndexOf(r, k') == IndexOf(t, k') by {
        forall k' | k' != k ensures IndexOf(r, k') == IndexOf(t, k') {
          AppendIndex(t, Entry(k, v), k');
        }
      }
      r
  }

  lemma {:induction false} SameKeysSameIndex(t: Table, u: Table, k: string)
    requires |t| == |u| && forall i :: 0 <= i < |t| ==> t[i].key == u[i].key
    ensures IndexOf(t, k) == IndexOf(u, k)
    decreases |t|
  {
    if |t| > 0 { SameKeysSameIndex(t[1..], u[1..], k); }
  }

  lemma {:induction false} AppendIndex(t: Table, e: Entry, k: string)
    requires e.key != k
    ensures IndexOf(t + [e], k) == IndexOf(t, k)
    decreases |t|
  {
    if |t| > 0 {
      assert (t + [e])[1..] == t[1..] + [e];
      AppendIndex(t[1..], e, k);
    }
  }

  /** Assignment keeps a dictionary free of duplicate keys. */
  lemma PutDistinct(t: Table, k: string, v: string)
    requires Distinct(t)
    ensures Distinct(Put(t, k, v))
  {
    var r := Put(t, k, v);
    if !HasKey(t, k) {
      forall i, j | 0 <= i < j < |r| ensures r[i].key != r[j].key {
        if j == |t| { assert IndexOf(t, k) == -1; }
      }
    } else {
      forall i, j | 0 <= i < j < |r| ensures r[i].key != r[j].key {
        assert Keys(r)[i] == Keys(t)[i] && Keys(r)[j] == Keys(t)[j];
      }
    }
  }

  /** Assigning a key twice is assigning it the second value. */
  lemma PutPut(t: Table, k: string, v1: string, v2: string)
    ensures Put(Put(t, k, v1), k, v2) == Put(t, k, v2)
  {
    var i := IndexOf(t, k);
    var once := Put(t, k, v1);
    if i >= 0 {
      SameKeysSameIndex(t, once, k);
    } else {
      assert IndexOf(once, k) == |t|;
    }
  }

  /** `d.update(other)`: assign each entry of `other` in its order. */
  function Update(t: Table, other: Table): (r: Table)
    ensures forall k :: HasKey(other, k) ==> HasKey(r, k)
    ensures forall k :: !HasKey(other, k) ==> Get(r, k) == Get(t, k)
    decreases |other|
  {
    if |other| == 0 then t
    else
      var r := Update(Put(t, other[0].key, other[0].value), other[1..]);
      assert forall k :: HasKey(other, k) && k != other[0].key ==> HasKey(other[1..], k);
      assert forall k :: !HasKey(other, k) ==> k != other[0].key && !HasKey(other[1..], k);
      r
  }

  /** `update` keeps a dictionary free of duplicate keys. */
  lemma {:induction false} UpdateDistinct(t: Table, other: Table)
    requires Distinct(t)
    ensures Distinct(Update(t, other))
    decreases |other|
  {
    if |other| > 0 {
      PutDistinct(t, other[0].key, other[0].value);
      UpdateDistinct(Put(t, other[0].key, other[0].value), other[1..]);
    }
  }

  /** After `d.update(other)`, every key of `other` has its value there. */
  lemma {:induction false} UpdateGet(t: Table, other: Table, k: string)
    requires Distinct(other) && HasKey(other, k)
    ensures Get(Update(t, other), k) == Get(other, k)
    decreases |other|
  {
    var first := other[0];
    if first.key == k {
      assert !HasKey(other[1..], k) by {
        forall i | 0 <= i < |other[1..]| ensures other[1..][i].key != k {
          assert other[1..][i] == other[i + 1];
        }
      }
    } else {
      assert Distinct(other[1..]) by {
        forall i, j | 0 <= i < j < |other[1..]| ensures other[1..][i].key != other[1..][j].key {
          assert other[1..][i] == other[i + 1] && other[1..][j] == other[j + 1];
        }
      }
      UpdateGet(Put(t, first.key, first.value), other[1..], k);
    }
  }
}
