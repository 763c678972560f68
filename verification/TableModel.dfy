/**
 What hash_table.c computes, on values: buckets of entries in insertion order, compared with
 a map from keys to the values added under them, oldest first.
 */
module TableModel {
  import opened Common

  /** Keys are C strings: bytes other than the terminating zero. */
  type letter = x: int | 1 <= x < 0x100 witness 1
  type Key = seq<letter>

  const PRIME: nat := 65521

  /** MAX_LENGTH bytes are compared and MAX_KEY_SIZE bytes are stored. */
  const MAX_LENGTH: nat := 50
  const MAX_KEY_SIZE: nat := 64

  function Clip(k: Key, n: nat): (r: Key)
    ensures |r| <= n && |r| <= |k| && r == k[..|r|]
    ensures |k| <= n ==> r == k
  {
    if |k| <= n then k else k[..n]
  }

  /** strncmp(a, b, MAX_LENGTH) == 0. */
  predicate Matches(a: Key, b: Key) {
    Clip(a, MAX_LENGTH) == Clip(b, MAX_LENGTH)
  }

  /** The key as a polynomial in 256, first letter highest. */
  function Poly(k: Key): (v: nat) {
    if |k| == 0 then 0 else 256 * Poly(k[..|k| - 1]) + k[|k| - 1]
  }

  function Index(k: Key, size: nat): (i: nat)
    requires size > 0
    ensures i < size
  {
    Poly(k) % PRIME % size
  }

  datatype Entry<D> = Entry(key: Key, value: D)

  /** The first entry under the key, or the length when there is none. */
  function FirstMatch<D>(chain: seq<Entry<D>>, k: Key): (i: nat)
    ensures i <= |chain| && (i < |chain| ==> Matches(chain[i].key, k))
    ensures forall j :: 0 <= j < i ==> !Matches(chain[j].key, k)
  {
    if |chain| == 0 then 0
    else if Matches(chain[0].key, k) then 0
    else FirstMatch(chain[1..], k) + 1
  }

  function AddTo<D>(b: seq<seq<Entry<D>>>, k: Key, v: D): (r: seq<seq<Entry<D>>>)
    requires |b| > 0
    ensures |r| == |b|
  {
    var i := Index(k, |b|);
    b[i := b[i] + [Entry(Clip(k, MAX_KEY_SIZE), v)]]
  }

  function LookupIn<D>(b: seq<seq<Entry<D>>>, k: Key): (r: Option<D>)
    requires |b| > 0
  {
    var chain := b[Index(k, |b|)];
    var i := FirstMatch(chain, k);
    if i < |chain| then Some(chain[i].value) else None
  }

  function DropAt<T>(s: seq<T>, i: nat): (r: seq<T>)
    requires i < |s|
    ensures |r| == |s| - 1
  {
    s[..i] + s[i + 1..]
  }

  function RemoveFrom<D>(b: seq<seq<Entry<D>>>, k: Key): (r: seq<seq<Entry<D>>>)
    requires |b| > 0
    ensures |r| == |b|
  {
    var i := Index(k, |b|);
    var j := FirstMatch(b[i], k);
    if j < |b[i]| then b[i := DropAt(b[i], j)] else b
  }

  function Emptied<D>(size: nat): (r: seq<seq<Entry<D>>>)
    ensures |r| == size && forall i :: 0 <= i < size ==> r[i] == []
  {
    seq(size, _ => [])
  }

  // ----- sequences of calls, on buckets and on a map -----

  datatype Call<D> = Add(key: Key, value: D) | Lookup(key: Key) | Remove(key: Key) | Clear

  datatype Reply<D> = Done(ok: bool) | Found(result: Option<D>)

  function TableAfter<D>(b: seq<seq<Entry<D>>>, c: Call<D>): (r: seq<seq<Entry<D>>>)
    requires |b| > 0
    ensures |r| == |b|
  {
    match c
    case Add(k, v) => AddTo(b, k, v)
    case Lookup(_) => b
    case Remove(k) => RemoveFrom(b, k)
    case Clear => Emptied(|b|)
  }

  function TableReply<D>(b: seq<seq<Entry<D>>>, c: Call<D>): Reply<D>
    requires |b| > 0
  {
    match c
    case Add(_, _) => Done(true)
    case Lookup(k) => Found(LookupIn(b, k))
    case Remove(k) => Done(LookupIn(b, k) != None)
    case Clear => Done(true)
  }

  function TableRun<D>(b: seq<seq<Entry<D>>>, calls: seq<Call<D>>): seq<Reply<D>>
    requires |b| > 0
    decreases |calls|
  {
    if |calls| == 0 then [] else [TableReply(b, calls[0])] + TableRun(TableAfter(b, calls[0]), calls[1..])
  }

  function Get<D>(m: map<Key, seq<D>>, k: Key): seq<D> {
    if k in m then m[k] else []
  }

  function MapAfter<D>(m: map<Key, seq<D>>, c: Call<D>): map<Key, seq<D>> {
    match c
    case Add(k, v) => m[k := Get(m, k) + [v]]
    case Lookup(_) => m
    case Remove(k) => if Get(m, k) == [] then m else m[k := Get(m, k)[1..]]
    case Clear => map[]
  }

  function MapReply<D>(m: map<Key, seq<D>>, c: Call<D>): Reply<D> {
    match c
    case Add(_, _) => Done(true)
    case Lookup(k) => Found(if Get(m, k) == [] then None else Some(Get(m, k)[0]))
    case Remove(k) => Done(Get(m, k) != [])
    case Clear => Done(true)
  }

  function MapRun<D>(m: map<Key, seq<D>>, calls: seq<Call<D>>): seq<Reply<D>>
    decreases |calls|
  {
    if |calls| == 0 then [] else [MapReply(m, calls[0])] + MapRun(MapAfter(m, calls[0]), calls[1..])
  }

  // ----- the values under a key -----

  function ValuesOf<D>(chain: seq<Entry<D>>, k: Key): seq<D> {
    if |chain| == 0 then []
    else (if Matches(chain[0].key, k) then [chain[0].value] else []) + ValuesOf(chain[1..], k)
  }

  lemma {:induction false} ValuesAppend<D>(chain: seq<Entry<D>>, e: Entry<D>, k: Key)
    ensures ValuesOf(chain + [e], k) == ValuesOf(chain, k) + if Matches(e.key, k) then [e.value] else []
    decreases |chain|
  {
    if |chain| > 0 {
      assert (chain + [e])[1..] == chain[1..] + [e];
      ValuesAppend(chain[1..], e, k);
    }
  }

  lemma {:induction false} ValuesFirst<D>(chain: seq<Entry<D>>, k: Key)
    ensures ValuesOf(chain, k) == [] <==> FirstMatch(chain, k) == |chain|
    ensures FirstMatch(chain, k) < |chain| ==> ValuesOf(chain, k)[0] == chain[FirstMatch(chain, k)].value
    decreases |chain|
  {
    if |chain| > 0 {
      ValuesFirst(chain[1..], k);
    }
  }

  /** Dropping the first match drops the oldest value of the keys that match, and of no other. */
  lemma {:induction false} ValuesDrop<D>(chain: seq<Entry<D>>, k: Key, other: Key)
    requires FirstMatch(chain, k) < |chain|
    ensures ValuesOf(chain, other) != [] || !Matches(k, other)
    ensures ValuesOf(DropAt(chain, FirstMatch(chain, k)), other)
         == if Matches(k, other) then ValuesOf(chain, other)[1..] else ValuesOf(chain, other)
    decreases |chain|
  {
    hide ValuesOf, FirstMatch, Clip;
    var i := FirstMatch(chain, k);
    var d := DropAt(chain, i);
    ChainStep(chain, k);
    ChainStep(chain, other);
    if i == 0 {
      assert d == chain[1..];
    } else {
      ValuesDrop(chain[1..], k, other);
      ChainStep(d, other);
      assert d[0] == chain[0] && d[1..] == DropAt(chain[1..], i - 1);
    }
  }

  lemma ChainStep<D>(chain: seq<Entry<D>>, k: Key)
    requires |chain| > 0
    ensures FirstMatch(chain, k) == if Matches(chain[0].key, k) then 0 else FirstMatch(chain[1..], k) + 1
    ensures ValuesOf(chain, k) == (if Matches(chain[0].key, k) then [chain[0].value] else []) + ValuesOf(chain[1..], k)
  {
    hide Matches;
  }

  /** A key cut to MAX_KEY_SIZE bytes still matches what the whole key matches. */
  lemma ClippedMatches(k: Key, other: Key)
    ensures Matches(Clip(k, MAX_KEY_SIZE), other) <==> Matches(k, other)
  {
    if |k| > MAX_KEY_SIZE {
      assert k[..MAX_KEY_SIZE][..MAX_LENGTH] == k[..MAX_LENGTH];
    }
  }

  // ----- agreement -----

  /** Two keys that the table cannot tell apart. */
  predicate Confused(a: Key, b: Key, size: nat)
    requires size > 0
  {
    Index(a, size) == Index(b, size) && Matches(a, b)
  }

  ghost predicate Distinguished(keys: Key -> bool, size: nat)
    requires size > 0
  {
    forall a, b :: keys(a) && keys(b) && Confused(a, b, size) ==> a == b
  }

  predicate Uses<D>(keys: Key -> bool, c: Call<D>) {
    c.Clear? || keys(c.key)
  }

  ghost predicate AllUse<D>(keys: Key -> bool, calls: seq<Call<D>>) {
    forall i :: 0 <= i < |calls| ==> Uses(keys, calls[i])
  }

  /** The chains hold the map's values for every key in question. */
  ghost predicate Represents<D>(b: seq<seq<Entry<D>>>, m: map<Key, seq<D>>, keys: Key -> bool)
    requires |b| > 0
  {
    forall k :: keys(k) ==> ValuesOf(b[Index(k, |b|)], k) == Get(m, k)
  }

  lemma RepliesAgree<D>(b: seq<seq<Entry<D>>>, m: map<Key, seq<D>>, keys: Key -> bool, c: Call<D>)
    requires |b| > 0 && Represents(b, m, keys) && Uses(keys, c)
    ensures TableReply(b, c) == MapReply(m, c)
  {
    hide Index, ValuesOf, FirstMatch;
    if c.Lookup? || c.Remove? {
      ValuesFirst(b[Index(c.key, |b|)], c.key);
    }
  }

  lemma AddKeepsValues<D>(b: seq<seq<Entry<D>>>, k: Key, v: D, other: Key)
    requires |b| > 0
    ensures var i := Index(other, |b|);
      ValuesOf(AddTo(b, k, v)[i], other) == ValuesOf(b[i], other) + if Confused(k, other, |b|) then [v] else []
  {
    hide Index, ValuesOf, Matches, Clip;
    var i := Index(k, |b|);
    ValuesAppend(b[i], Entry(Clip(k, MAX_KEY_SIZE), v), other);
    ClippedMatches(k, other);
  }

  lemma RemoveKeepsValues<D>(b: seq<seq<Entry<D>>>, k: Key, other: Key)
    requires |b| > 0
    ensures var i := Index(other, |b|);
      ValuesOf(RemoveFrom(b, k)[i], other)
      == if Confused(k, other, |b|) && ValuesOf(b[i], other) != [] then ValuesOf(b[i], other)[1..]
         else ValuesOf(b[i], other)
  {
    hide Index, ValuesOf, Clip, FirstMatch;
    var i := Index(k, |b|);
    if FirstMatch(b[i], k) < |b[i]| {
      ValuesDrop(b[i], k, other);
    } else if Matches(k, other) {
      SameMatches(b[i], k, other);
      ValuesFirst(b[i], other);
    }
  }

  lemma {:induction false} SameMatches<D>(chain: seq<Entry<D>>, k: Key, other: Key)
    requires Matches(k, other)
    ensures FirstMatch(chain, k) == FirstMatch(chain, other)
    decreases |chain|
  {
    if |chain| > 0 {
      SameMatches(chain[1..], k, other);
    }
  }

  lemma StepRepresents<D>(b: seq<seq<Entry<D>>>, m: map<Key, seq<D>>, keys: Key -> bool, c: Call<D>)
    requires |b| > 0 && Distinguished(keys, |b|) && Represents(b, m, keys) && Uses(keys, c)
    ensures Represents(TableAfter(b, c), MapAfter(m, c), keys)
  {
    hide Index, ValuesOf, Clip, AddTo, RemoveFrom;
    forall k | keys(k)
      ensures ValuesOf(TableAfter(b, c)[Index(k, |b|)], k) == Get(MapAfter(m, c), k)
    {
      if c.Add? || c.Remove? {
        assert Confused(c.key, k, |b|) <==> c.key == k;
      }
      match c
      case Add(key, v) => AddKeepsValues(b, key, v, k);
      case Lookup(_) =>
      case Remove(key) => RemoveKeepsValues(b, key, k);
      case Clear => NoValues<D>(k);
    }
  }

  lemma NoValues<D>(k: Key)
    ensures ValuesOf<D>([], k) == []
  {
  }

  lemma {:induction false} RunsAgree<D>(b: seq<seq<Entry<D>>>, m: map<Key, seq<D>>,
                                        keys: Key -> bool, calls: seq<Call<D>>)
    requires |b| > 0 && Distinguished(keys, |b|) && Represents(b, m, keys) && AllUse(keys, calls)
    ensures TableRun(b, calls) == MapRun(m, calls)
    decreases |calls|
  {
    if |calls| > 0 {
      hide Represents, Distinguished, TableAfter, MapAfter, TableReply, MapReply;
      RepliesAgree(b, m, keys, calls[0]);
      StepRepresents(b, m, keys, calls[0]);
      RunsAgree(TableAfter(b, calls[0]), MapAfter(m, calls[0]), keys, calls[1..]);
    }
  }

  /** Every sequence of calls with these keys gets the map's replies from an empty table. */
  ghost predicate AgreesWithMap<D(!new)>(keys: Key -> bool, size: nat)
    requires size > 0
  {
    forall calls: seq<Call<D>> :: AllUse(keys, calls) ==> TableRun(Emptied(size), calls) == MapRun(map[], calls)
  }

  /** One value added under a and looked up under b tells whether the table confuses them. */
  lemma ConfusedLookup<D>(a: Key, b: Key, size: nat, v: D)
    requires size > 0 && a != b && Confused(a, b, size)
    ensures TableRun(Emptied(size), [Add(a, v), Lookup(b)]) == [Done(true), Found(Some(v))]
    ensures MapRun(map[], [Add(a, v), Lookup(b)]) == [Done(true), Found(None)]
  {
    var b0, m0 := Emptied<D>(size), map[];
    var b1, m1 := AddTo(b0, a, v), m0[a := [v]];
    TwoCalls(b0, m0, Add(a, v), Lookup(b));
    assert LookupIn(b1, b) == Some(v) by {
      hide Index, Matches, Clip;
      ClippedMatches(a, b);
      assert b1[Index(b, size)] == [Entry(Clip(a, MAX_KEY_SIZE), v)];
    }
    hide *;
    TwoReplies(b1, m1, a, b, v);
  }

  lemma TwoReplies<D>(b1: seq<seq<Entry<D>>>, m1: map<Key, seq<D>>, a: Key, b: Key, v: D)
    requires |b1| > 0 && LookupIn(b1, b) == Some(v) && m1 == map[a := [v]] && a != b
    ensures TableReply(b1, Lookup(b)) == Found(Some(v)) && MapReply(m1, Lookup(b)) == Found(None)
  {
    hide LookupIn;
  }

  lemma TwoCalls<D>(b: seq<seq<Entry<D>>>, m: map<Key, seq<D>>, c: Call<D>, d: Call<D>)
    requires |b| > 0
    ensures TableRun(b, [c, d]) == [TableReply(b, c), TableReply(TableAfter(b, c), d)]
    ensures MapRun(m, [c, d]) == [MapReply(m, c), MapReply(MapAfter(m, c), d)]
  {
    hide TableReply, MapReply, TableAfter, MapAfter;
    assert [c, d][1..] == [d] && [d][1..] == [];
    assert TableRun(TableAfter(b, c), [d]) == [TableReply(TableAfter(b, c), d)];
    assert MapRun(MapAfter(m, c), [d]) == [MapReply(MapAfter(m, c), d)];
  }

  /**
   The table is a map from keys to values in insertion order exactly for the key sets in
   which no two keys have both one bucket and one first 50 bytes.
   */
  lemma AgreesIffDistinguished<D(!new)>(keys: Key -> bool, size: nat, v: D)
    requires size > 0
    ensures AgreesWithMap<D>(keys, size) <==> Distinguished(keys, size)
  {
    if Distinguished(keys, size) {
      EmptyRepresents<D>(keys, size);
      forall calls: seq<Call<D>> | AllUse(keys, calls)
        ensures TableRun(Emptied(size), calls) == MapRun(map[], calls)
      {
        RunsAgree(Emptied(size), map[], keys, calls);
      }
    } else {
      var a, b :| keys(a) && keys(b) && Confused(a, b, size) && a != b;
      var calls := [Add(a, v), Lookup(b)];
      ConfusedLookup(a, b, size, v);
      hide TableRun, MapRun;
      assert AllUse(keys, calls);
    }
  }

  lemma EmptyRepresents<D>(keys: Key -> bool, size: nat)
    requires size > 0
    ensures Represents<D>(Emptied(size), map[], keys)
  {
  }

  /** Keys of at most 50 bytes are never confused, whatever the size of the table. */
  lemma ShortKeysAgree<D>(size: nat, calls: seq<Call<D>>)
    requires size > 0 && forall i :: 0 <= i < |calls| ==> calls[i].Clear? || |calls[i].key| <= 50
    ensures TableRun(Emptied(size), calls) == MapRun(map[], calls)
  {
    var short := (k: Key) => |k| <= MAX_LENGTH;
    EmptyRepresents<D>(short, size);
    assert AllUse(short, calls);
    RunsAgree(Emptied(size), map[], short, calls);
  }

  lemma PolyThree(p: Key, a: letter, b: letter, c: letter)
    ensures Poly(p + [a, b, c]) == 0x100_0000 * Poly(p) + 0x1_0000 * a + 0x100 * b + c
  {
    var k := p + [a, b, c];
    assert k[..|p| + 2] == p + [a, b] && (p + [a, b])[..|p| + 1] == p + [a] && (p + [a])[..|p|] == p;
    assert Poly(k) == 256 * Poly(p + [a, b]) + c;
    assert Poly(p + [a, b]) == 256 * Poly(p + [a]) + b;
  }

  /** Beyond 50 bytes there are keys that tables of every size confuse. */
  lemma LongKeysConfused(p: Key, size: nat)
    requires |p| == 50 && size > 0
    ensures p + [2, 1, 1] != p + [1, 1, 16]
    ensures Confused(p + [2, 1, 1], p + [1, 1, 16], size)
  {
    var a, b := p + [2, 1, 1], p + [1, 1, 16];
    assert a[|p|] != b[|p|];
    assert a[..MAX_LENGTH] == p == b[..MAX_LENGTH];
    PolyThree(p, 2, 1, 1);
    PolyThree(p, 1, 1, 16);
    hide Poly;
    assert Poly(a) == Poly(b) + PRIME;
    assert Poly(a) % PRIME == Poly(b) % PRIME;
  }
}
