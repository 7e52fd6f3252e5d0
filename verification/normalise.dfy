/** The key normalisation inside `json_callback` (initial.py:51-75).

    A parsed JSON object is a Python dict: its members in insertion order, each
    key at most once. The entry at 1-based position `i` is stored under its own
    key when that key already starts with the prefix (`agent_` or `task_`), and
    under `prefix + str(i)` otherwise. Storing goes through dict assignment, so
    a key produced twice keeps the position of its first insertion and the value
    of its last. */
module Normalise {
  import opened Wrappers
  import opened Strings

  type Entries<V> = seq<(string, V)>

  function Keys<V>(d: Entries<V>): (ks: seq<string>)
    ensures |ks| == |d|
    ensures forall i :: 0 <= i < |d| ==> ks[i] == d[i].0
  {
    seq(|d|, i requires 0 <= i < |d| => d[i].0)
  }

  predicate DistinctKeys<V>(d: Entries<V>) {
    forall i, j :: 0 <= i < j < |d| ==> d[i].0 != d[j].0
  }

  predicate Distinct(s: seq<string>) {
    forall i, j :: 0 <= i < j < |s| ==> s[i] != s[j]
  }

  /** The position of key `k`, or -1. */
  function IndexOf<V>(d: Entries<V>, k: string): (r: int)
    ensures -1 <= r < |d|
    ensures r >= 0 ==> d[r].0 == k
    ensures r < 0 ==> forall i :: 0 <= i < |d| ==> d[i].0 != k
    decreases |d|
  {
    if |d| == 0 then -1
    else if d[|d| - 1].0 == k then |d| - 1
    else IndexOf(d[..|d| - 1], k)
  }

  /** `d.get(k)`. */
  function Lookup<V>(d: Entries<V>, k: string): Option<V> {
    var i := IndexOf(d, k);
    if i < 0 then None else Some(d[i].1)
  }

  /** `d[k] = v`: an existing key keeps its position and takes the new value; a
      new key is added last. */
  function Put<V>(d: Entries<V>, k: string, v: V): (r: Entries<V>)
    ensures k in Keys(d) ==> Keys(r) == Keys(d)
    ensures k !in Keys(d) ==> Keys(r) == Keys(d) + [k]
    ensures DistinctKeys(d) ==> DistinctKeys(r)
    ensures DistinctKeys(d) ==> Lookup(r, k) == Some(v)
    ensures DistinctKeys(d) ==> forall k' :: k' != k ==> Lookup(r, k') == Lookup(d, k')
  {
    var i := IndexOf(d, k);
    if i >= 0 then
      var r := d[i := (k, v)];
      assert Keys(r) == Keys(d);
      r
    else
      var r := d + [(k, v)];
      assert Keys(r) == Keys(d) + [k];
      r
  }

  /** The key an entry at 1-based `position` is stored under (initial.py:57-60):
      its own key when that carries the prefix, else the prefix followed by the
      decimal digits of the position. */
  function RenameKey(key: string, prefix: string, position: nat): (r: string)
    ensures StartsWith(r, prefix)
    ensures StartsWith(key, prefix) ==> r == key
    ensures !StartsWith(key, prefix) ==> |prefix| < |r|
  {
    if StartsWith(key, prefix) then key
    else
      PrefixOfAppend(prefix, NatToString(position));
      prefix + NatToString(position)
  }

  /** A key without the prefix becomes the prefix followed by decimal digits
      that spell the entry's position. */
  lemma RenameKeyNumbered(key: string, prefix: string, position: nat)
    requires !StartsWith(key, prefix)
    ensures var r := RenameKey(key, prefix, position);
            && IsDigits(r[|prefix|..])
            && DigitsValue(r[|prefix|..]) == position
  {
    var r := RenameKey(key, prefix, position);
    assert r[|prefix|..] == NatToString(position);
    NatToStringRoundTrip(position);
  }

  /** Two entries without the prefix never get the same key. */
  lemma UnprefixedKeysDistinct<V>(d: Entries<V>, prefix: string, i: nat, j: nat)
    requires i < j < |d|
    requires !StartsWith(d[i].0, prefix) && !StartsWith(d[j].0, prefix)
    ensures MappedKeys(d, prefix)[i] != MappedKeys(d, prefix)[j]
  {
    var a := RenameKey(d[i].0, prefix, i + 1);
    var b := RenameKey(d[j].0, prefix, j + 1);
    RenameKeyNumbered(d[i].0, prefix, i + 1);
    RenameKeyNumbered(d[j].0, prefix, j + 1);
    assert DigitsValue(a[|prefix|..]) == i + 1;
    assert DigitsValue(b[|prefix|..]) == j + 1;
    assert a != b;
    var ms := MappedKeys(d, prefix);
    assert ms[i] == a && ms[j] == b;
  }

  /** The keys the entries are stored under, in input order. */
  function MappedKeys<V>(d: Entries<V>, prefix: string): (ks: seq<string>)
    ensures |ks| == |d|
  {
    seq(|d|, i requires 0 <= i < |d| => RenameKey(d[i].0, prefix, i + 1))
  }

  /** The loop of initial.py:54-62 (and 66-74), one entry per step. */
  function Normalize<V>(d: Entries<V>, prefix: string): (r: Entries<V>)
    ensures DistinctKeys(r)
    ensures forall i :: 0 <= i < |r| ==> StartsWith(r[i].0, prefix)
    ensures |r| <= |d|
    decreases |d|
  {
    if |d| == 0 then []
    else
      var n := |d|;
      var front := Normalize(d[..n - 1], prefix);
      var key := RenameKey(d[n - 1].0, prefix, n);
      PutKeepsPrefix(front, key, d[n - 1].1, prefix);
      Put(front, key, d[n - 1].1)
  }

  /** Storing a prefixed key among prefixed keys leaves only prefixed keys, and
      adds at most one entry. */
  lemma PutKeepsPrefix<V>(d: Entries<V>, k: string, v: V, prefix: string)
    requires forall i :: 0 <= i < |d| ==> StartsWith(d[i].0, prefix)
    requires StartsWith(k, prefix)
    ensures forall i :: 0 <= i < |Put(d, k, v)| ==> StartsWith(Put(d, k, v)[i].0, prefix)
    ensures |Put(d, k, v)| <= |d| + 1
  {
    var r := Put(d, k, v);
    forall i | 0 <= i < |r|
      ensures StartsWith(r[i].0, prefix)
    {
      assert r[i].0 == Keys(r)[i];
      if i < |d| {
        assert Keys(r)[i] == Keys(d)[i];
      }
    }
  }

  /** The position of the first occurrence of `x` in `s`. */
  function FirstIndex(s: seq<string>, x: string): (i: nat)
    requires x in s
    ensures i < |s| && s[i] == x
    ensures forall j :: 0 <= j < i ==> s[j] != x
    decreases |s|
  {
    if s[0] == x then 0 else 1 + FirstIndex(s[1..], x)
  }

  /** Appending an element does not move any first occurrence. */
  lemma FirstIndexSnoc(s: seq<string>, y: string, x: string)
    requires x in s
    ensures FirstIndex(s + [y], x) == FirstIndex(s, x)
  {
    var i := FirstIndex(s, x);
    var i' := FirstIndex(s + [y], x);
    assert (s + [y])[i] == x;
    assert forall j :: 0 <= j < i ==> (s + [y])[j] == s[j];
  }

  /** The first occurrences of the elements of `s`, in the order in which they
      first occur. */
  function Dedup(s: seq<string>): (r: seq<string>)
    ensures forall x :: x in r <==> x in s
    ensures Distinct(r)
    ensures forall i, j :: 0 <= i < j < |r| ==> FirstIndex(s, r[i]) < FirstIndex(s, r[j])
    decreases |s|
  {
    if |s| == 0 then []
    else
      var front := s[..|s| - 1];
      var y := s[|s| - 1];
      var r := Dedup(front);
      assert s == front + [y];
      forall x | x in front
        ensures FirstIndex(s, x) == FirstIndex(front, x)
      {
        FirstIndexSnoc(front, y, x);
      }
      if y in r then r
      else
        assert FirstIndex(s, y) == |s| - 1;
        r + [y]
  }

  lemma MappedKeysFront<V>(d: Entries<V>, prefix: string)
    requires 0 < |d|
    ensures MappedKeys(d[..|d| - 1], prefix) == MappedKeys(d, prefix)[..|d| - 1]
  {
  }

  /** The output keys are the renamed keys with repeats dropped: a key produced
      more than once keeps the position where it was first produced. */
  lemma {:induction false} NormalizeKeyOrder<V>(d: Entries<V>, prefix: string)
    ensures Keys(Normalize(d, prefix)) == Dedup(MappedKeys(d, prefix))
    decreases |d|
  {
    if |d| > 0 {
      var n := |d|;
      var front := d[..n - 1];
      var ms := MappedKeys(d, prefix);
      NormalizeKeyOrder(front, prefix);
      MappedKeysFront(d, prefix);
      var fr := Normalize(front, prefix);
      var key := RenameKey(d[n - 1].0, prefix, n);
      assert key == ms[n - 1];
      assert Normalize(d, prefix) == Put(fr, key, d[n - 1].1);
      assert Keys(fr) == Dedup(ms[..n - 1]);
      assert Dedup(ms) == if key in Dedup(ms[..n - 1]) then Dedup(ms[..n - 1]) else Dedup(ms[..n - 1]) + [key];
    }
  }

  /** One step of `Normalize`: the last entry is stored under its renamed key. */
  lemma NormalizeStep<V>(d: Entries<V>, prefix: string)
    requires 0 < |d|
    ensures Normalize(d, prefix) ==
            Put(Normalize(d[..|d| - 1], prefix), MappedKeys(d, prefix)[|d| - 1], d[|d| - 1].1)
    ensures DistinctKeys(Normalize(d[..|d| - 1], prefix))
    ensures MappedKeys(d[..|d| - 1], prefix) == MappedKeys(d, prefix)[..|d| - 1]
  {
    MappedKeysFront(d, prefix);
  }

  /** A key that no entry is renamed to is absent from the output. */
  lemma {:induction false} NormalizeLookupAbsent<V>(d: Entries<V>, prefix: string, k: string)
    requires k !in MappedKeys(d, prefix)
    ensures Lookup(Normalize(d, prefix), k) == None
    decreases |d|
  {
    if |d| > 0 {
      var n := |d|;
      var ms := MappedKeys(d, prefix);
      NormalizeStep(d, prefix);
      assert k != ms[n - 1];
      assert k !in ms[..n - 1];
      NormalizeLookupAbsent(d[..n - 1], prefix, k);
    }
  }

  /** The output key of entry `i` holds its value when no later entry is renamed
      to the same key. */
  lemma {:induction false} NormalizeLookupLast<V>(d: Entries<V>, prefix: string, i: nat)
    requires i < |d|
    requires forall j :: i < j < |d| ==> MappedKeys(d, prefix)[j] != MappedKeys(d, prefix)[i]
    ensures Lookup(Normalize(d, prefix), MappedKeys(d, prefix)[i]) == Some(d[i].1)
    decreases |d|
  {
    var n := |d|;
    var ms := MappedKeys(d, prefix);
    NormalizeStep(d, prefix);
    var fr := Normalize(d[..n - 1], prefix);
    var v := d[n - 1].1;
    if i < n - 1 {
      var fms := ms[..n - 1];
      assert ms[n - 1] != ms[i];
      assert fms[i] == ms[i];
      assert forall j :: i < j < n - 1 ==> fms[j] != fms[i];
      NormalizeLookupLast(d[..n - 1], prefix, i);
      assert Lookup(fr, ms[i]) == Some(d[i].1);
      assert Lookup(Put(fr, ms[n - 1], v), ms[i]) == Lookup(fr, ms[i]);
    } else {
      assert Lookup(Put(fr, ms[n - 1], v), ms[n - 1]) == Some(v);
    }
  }

  /** Each output key holds the value of the last entry renamed to it, and no
      other key is present. */
  lemma NormalizeLookup<V>(d: Entries<V>, prefix: string)
    ensures var ms := MappedKeys(d, prefix);
            forall i :: 0 <= i < |d| && (forall j :: i < j < |d| ==> ms[j] != ms[i]) ==>
              Lookup(Normalize(d, prefix), ms[i]) == Some(d[i].1)
    ensures forall k :: k !in MappedKeys(d, prefix) ==> Lookup(Normalize(d, prefix), k) == None
  {
    var ms := MappedKeys(d, prefix);
    forall i | 0 <= i < |d| && (forall j :: i < j < |d| ==> ms[j] != ms[i])
      ensures Lookup(Normalize(d, prefix), ms[i]) == Some(d[i].1)
    {
      NormalizeLookupLast(d, prefix, i);
    }
    forall k | k !in ms
      ensures Lookup(Normalize(d, prefix), k) == None
    {
      NormalizeLookupAbsent(d, prefix, k);
    }
  }

  /** An entry whose key already carries the prefix is stored under that key
      with its value, unless a later entry is renamed onto it. */
  lemma PrefixedKeyKept<V>(d: Entries<V>, prefix: string, i: nat)
    requires i < |d| && StartsWith(d[i].0, prefix)
    requires forall j :: i < j < |d| ==> MappedKeys(d, prefix)[j] != d[i].0
    ensures Lookup(Normalize(d, prefix), d[i].0) == Some(d[i].1)
  {
    var ms := MappedKeys(d, prefix);
    assert ms[i] == RenameKey(d[i].0, prefix, i + 1);
    assert ms[i] == d[i].0;
    NormalizeLookup(d, prefix);
  }

  /** Entries that are already prefixed and distinct are left as they are. */
  lemma NormalizeIdentity<V>(d: Entries<V>, prefix: string)
    requires DistinctKeys(d)
    requires forall i :: 0 <= i < |d| ==> StartsWith(d[i].0, prefix)
    ensures Normalize(d, prefix) == d
  {
    var ms := MappedKeys(d, prefix);
    assert forall i :: 0 <= i < |d| ==> ms[i] == d[i].0;
    NormalizeNoCollision(d, prefix);
    assert forall i :: 0 <= i < |d| ==> Normalize(d, prefix)[i] == d[i];
  }

  /** A second normalisation changes nothing. */
  lemma NormalizeIdempotent<V>(d: Entries<V>, prefix: string)
    ensures Normalize(Normalize(d, prefix), prefix) == Normalize(d, prefix)
  {
    NormalizeIdentity(Normalize(d, prefix), prefix);
  }

  /** Without collisions among the renamed keys, entry `i` keeps its value and
      position under its renamed key, and nothing is lost. */
  lemma {:induction false} NormalizeNoCollision<V>(d: Entries<V>, prefix: string)
    requires Distinct(MappedKeys(d, prefix))
    ensures |Normalize(d, prefix)| == |d|
    ensures forall i :: 0 <= i < |d| ==> Normalize(d, prefix)[i] == (MappedKeys(d, prefix)[i], d[i].1)
    decreases |d|
  {
    if |d| > 0 {
      var n := |d|;
      var ms := MappedKeys(d, prefix);
      var front := d[..n - 1];
      MappedKeysFront(d, prefix);
      assert Distinct(MappedKeys(front, prefix));
      NormalizeNoCollision(front, prefix);
      var fr := Normalize(front, prefix);
      var key := RenameKey(d[n - 1].0, prefix, n);
      assert key == ms[n - 1];
      assert Normalize(d, prefix) == Put(fr, key, d[n - 1].1);
      assert Keys(fr) == ms[..n - 1];
      assert key !in Keys(fr);
      assert Put(fr, key, d[n - 1].1) == fr + [(key, d[n - 1].1)];
      forall i | 0 <= i < n
        ensures Normalize(d, prefix)[i] == (ms[i], d[i].1)
      {
        if i < n - 1 {
          assert MappedKeys(front, prefix)[i] == ms[i];
        }
      }
    }
  }

  /** initial.py:52-75: `agents` and `tasks` are normalised with their prefix;
      any other kind is left as parsed. */
  function NormalizeFor<V>(kind: string, d: Entries<V>): (r: Entries<V>)
    ensures kind != "agents" && kind != "tasks" ==> r == d
    ensures kind == "agents" ==> r == Normalize(d, "agent_")
    ensures kind == "tasks" ==> r == Normalize(d, "task_")
    ensures kind == "agents" ==> DistinctKeys(r) && forall i :: 0 <= i < |r| ==> StartsWith(r[i].0, "agent_")
    ensures kind == "tasks" ==> DistinctKeys(r) && forall i :: 0 <= i < |r| ==> StartsWith(r[i].0, "task_")
  {
    if kind == "agents" then Normalize(d, "agent_")
    else if kind == "tasks" then Normalize(d, "task_")
    else d
  }

  /** A renamed key that equals a later original key collides with it: the later
      value wins and the key stays where it was first stored. */
  lemma CollisionExample<V>(a: V, b: V)
    ensures Normalize([("x", a), ("agent_1", b)], "agent_") == [("agent_1", b)]
  {
    var d := [("x", a), ("agent_1", b)];
    assert NatToString(1) == "1";
    assert !StartsWith("x", "agent_");
    assert StartsWith("agent_1", "agent_");
    assert d[..1] == [("x", a)];
    assert [("x", a)][..0] == [];
    assert RenameKey("x", "agent_", 1) == "agent_1";
    assert Normalize([("x", a)], "agent_") == [("agent_1", a)];
    assert RenameKey("agent_1", "agent_", 2) == "agent_1";
    assert IndexOf([("agent_1", a)], "agent_1") == 0;
  }
}
