/** Triage ordering of the waiting room: a stable sort of patient ids by the
    CTAS level of their records, as Python's `list.sort` with a key does. */
module Triage {
  import opened Records

  /** The ids of `s` whose patients have CTAS level `c`, in their order in `s`. */
  function WithCtas(s: seq<nat>, arena: seq<Patient>, c: int): seq<nat>
    requires InArena(s, arena)
  {
    if s == [] then []
    else (if arena[s[0]].ctasLvl == c then [s[0]] else []) + WithCtas(s[1..], arena, c)
  }

  predicate SortedByCtas(s: seq<nat>, arena: seq<Patient>)
    requires InArena(s, arena)
  {
    forall i, j :: 0 <= i < j < |s| ==> arena[s[i]].ctasLvl <= arena[s[j]].ctasLvl
  }

  /** Inserts `x` in front of the first id whose CTAS level is not below its own. */
  function Insert(x: nat, t: seq<nat>, arena: seq<Patient>): (r: seq<nat>)
    requires x < |arena| && InArena(t, arena)
    ensures InArena(r, arena)
    ensures multiset(r) == multiset(t) + multiset{x}
  {
    if t == [] || arena[x].ctasLvl <= arena[t[0]].ctasLvl then [x] + t
    else
      assert t == [t[0]] + t[1..];
      [t[0]] + Insert(x, t[1..], arena)
  }

  /** The waiting room after triage: a permutation of `s`. */
  function SortByCtas(s: seq<nat>, arena: seq<Patient>): (r: seq<nat>)
    requires InArena(s, arena)
    ensures InArena(r, arena)
    ensures multiset(r) == multiset(s)
  {
    if s == [] then []
    else
      assert s == [s[0]] + s[1..];
      Insert(s[0], SortByCtas(s[1..], arena), arena)
  }

  lemma {:induction false} InsertSorted(x: nat, t: seq<nat>, arena: seq<Patient>)
    requires x < |arena| && InArena(t, arena) && SortedByCtas(t, arena)
    ensures SortedByCtas(Insert(x, t, arena), arena)
  {
    if t == [] || arena[x].ctasLvl <= arena[t[0]].ctasLvl {
      assert Insert(x, t, arena) == [x] + t;
    } else {
      var rest := Insert(x, t[1..], arena);
      InsertSorted(x, t[1..], arena);
      forall k | 0 <= k < |rest|
        ensures arena[t[0]].ctasLvl <= arena[rest[k]].ctasLvl
      {
        assert rest[k] in multiset(t[1..]) + multiset{x};
        if rest[k] != x {
          assert rest[k] in t[1..];
        }
      }
      assert Insert(x, t, arena) == [t[0]] + rest;
    }
  }

  /** Triage leaves the waiting room in non-decreasing CTAS order. */
  lemma {:induction false} SortByCtasSorted(s: seq<nat>, arena: seq<Patient>)
    requires InArena(s, arena)
    ensures SortedByCtas(SortByCtas(s, arena), arena)
  {
    if s != [] {
      SortByCtasSorted(s[1..], arena);
      InsertSorted(s[0], SortByCtas(s[1..], arena), arena);
    }
  }

  lemma WithCtasCons(y: nat, r: seq<nat>, arena: seq<Patient>, c: int)
    requires y < |arena| && InArena(r, arena)
    ensures WithCtas([y] + r, arena, c) == (if arena[y].ctasLvl == c then [y] else []) + WithCtas(r, arena, c)
  {
    assert ([y] + r)[1..] == r;
  }

  /** Inserting `x` puts it in front of every id of its own CTAS level. */
  lemma {:induction false} InsertWithCtas(x: nat, t: seq<nat>, arena: seq<Patient>, c: int)
    requires x < |arena| && InArena(t, arena)
    ensures WithCtas(Insert(x, t, arena), arena, c)
         == (if arena[x].ctasLvl == c then [x] else []) + WithCtas(t, arena, c)
  {
    if t == [] || arena[x].ctasLvl <= arena[t[0]].ctasLvl {
      WithCtasCons(x, t, arena, c);
    } else {
      var r := Insert(x, t[1..], arena);
      InsertWithCtas(x, t[1..], arena, c);
      WithCtasCons(t[0], r, arena, c);
      WithCtasCons(t[0], t[1..], arena, c);
      assert t == [t[0]] + t[1..];
    }
  }

  /** Triage is stable: for every CTAS level, the patients of that level keep
      their relative order. */
  lemma {:induction false} SortByCtasStable(s: seq<nat>, arena: seq<Patient>, c: int)
    requires InArena(s, arena)
    ensures WithCtas(SortByCtas(s, arena), arena, c) == WithCtas(s, arena, c)
  {
    if s != [] {
      SortByCtasStable(s[1..], arena, c);
      InsertWithCtas(s[0], SortByCtas(s[1..], arena), arena, c);
    }
  }
}
