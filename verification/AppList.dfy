/** The insertion-order list of a table's elements, linked through prev and next. */
module AppList {
  import opened HashTable

  ghost predicate Linked(s: seq<Handle>)
    reads s`prev, s`next
  {
    && NoDup(s)
    && (forall i {:trigger s[i].prev} :: 0 <= i < |s| ==> s[i].prev == if i == 0 then null else s[i - 1])
    && (forall i {:trigger s[i].next} :: 0 <= i < |s| ==> s[i].next == if i + 1 == |s| then null else s[i + 1])
  }

  ghost function First(s: seq<Handle>): Handle? { if s == [] then null else s[0] }

  ghost function Elements(s: seq<Handle>): set<Handle> {
    set h | h in s
  }

  ghost function IndexOf(s: seq<Handle>, h: Handle): (i: nat)
    requires h in s
    ensures i < |s| && s[i] == h
  {
    if s[0] == h then 0 else 1 + IndexOf(s[1..], h)
  }

  /** The element before `h` in `s`, and the one after it. */
  ghost function Before(s: seq<Handle>, h: Handle): Handle?
    requires h in s
  {
    if IndexOf(s, h) == 0 then null else s[IndexOf(s, h) - 1]
  }

  ghost function After(s: seq<Handle>, h: Handle): Handle?
    requires h in s
  {
    if IndexOf(s, h) + 1 == |s| then null else s[IndexOf(s, h) + 1]
  }

  ghost function Removed(s: seq<Handle>, h: Handle): seq<Handle>
    requires h in s
  {
    Without(s, IndexOf(s, h))
  }

  ghost function Inserted(s: seq<Handle>, i: nat, x: Handle): seq<Handle>
    requires i <= |s|
  {
    s[..i] + [x] + s[i..]
  }

  /** The first element ranked after `x`, or the end. */
  ghost function Place(s: seq<Handle>, x: Handle, cmp: (Cache, Cache) -> int): (r: nat)
    ensures r <= |s|
  {
    if s == [] || Gt(s[0], x, cmp) then 0 else 1 + Place(s[1..], x, cmp)
  }

  /** The place comes after elements that compare at most equal to `x`, and before one that compares greater. */
  lemma {:induction false} PlaceMeans(s: seq<Handle>, x: Handle, cmp: (Cache, Cache) -> int)
    ensures var p := Place(s, x, cmp);
            && (forall i :: 0 <= i < p ==> cmp(s[i].elt, x.elt) <= 0)
            && (p < |s| ==> cmp(s[p].elt, x.elt) > 0)
  {
    if s != [] && cmp(s[0].elt, x.elt) <= 0 {
      PlaceMeans(s[1..], x, cmp);
    }
  }

  predicate Gt(a: Handle, b: Handle, cmp: (Cache, Cache) -> int) { cmp(a.elt, b.elt) > 0 }

  /** HASH_APPEND_LIST on the links; the caller moves the tail. */
  method AppendLinks(tail: Handle, x: Handle, ghost s: seq<Handle>)
    requires s != [] && tail == s[|s| - 1] && Linked(s) && x !in s
    modifies x`next, x`prev, tail`next
    ensures Linked(s + [x])
  {
    x.next := null;
    x.prev := tail;
    tail.next := x;
  }

  /** The ordered insertion before `it`; the caller moves the head. */
  method InsertLinks(it: Handle, x: Handle, ghost s: seq<Handle>, ghost i: nat)
    requires i < |s| && it == s[i] && Linked(s) && x !in s
    modifies x`next, x`prev, s`next, it`prev
    ensures Linked(Inserted(s, i, x))
  {
    x.next := it;
    x.prev := it.prev;
    if x.prev != null {
      x.prev.next := x;
    }
    it.prev := x;
    ghost var r := Inserted(s, i, x);
    forall t | 0 <= t < |r|
      ensures r[t].prev == if t == 0 then null else r[t - 1]
      ensures r[t].next == if t + 1 == |r| then null else r[t + 1]
    {
      if t < i { assert r[t] == s[t]; } else if t > i { assert r[t] == s[t - 1]; }
    }
  }

  /** The unlinking steps of HASH_DELETE_HH; the caller moves the head and the tail. */
  method UnlinkLinks(x: Handle, ghost s: seq<Handle>, ghost i: nat)
    requires i < |s| && x == s[i] && Linked(s)
    modifies s`next, s`prev
    ensures Linked(Without(s, i))
    ensures x.prev == old(x.prev) && x.next == old(x.next)
  {
    if x.prev != null {
      x.prev.next := x.next;
    }
    if x.next != null {
      x.next.prev := x.prev;
    }
    forall t {:trigger s[t].prev} {:trigger s[t].next} | 0 <= t < |s| && t != i
      ensures s[t].prev == (if t == 0 then null else if t == i + 1 then s[i].prev else s[t - 1])
      ensures s[t].next == (if t + 1 == |s| then null else if t + 1 == i then s[i].next else s[t + 1])
    {
    }
    BridgedLinks(s, i);
  }

  /** The links of `s` go around its element `i`, whose own links are as they were. */
  ghost predicate Bridged(s: seq<Handle>, i: nat)
    requires i < |s|
    reads s`prev, s`next
  {
    && NoDup(s)
    && s[i].prev == (if i == 0 then null else s[i - 1]) && s[i].next == (if i + 1 == |s| then null else s[i + 1])
    && forall t {:trigger s[t].prev} {:trigger s[t].next} :: 0 <= t < |s| && t != i ==>
         && s[t].prev == (if t == 0 then null else if t == i + 1 then s[i].prev else s[t - 1])
         && s[t].next == (if t + 1 == |s| then null else if t + 1 == i then s[i].next else s[t + 1])
  }

  lemma BridgedLinks(s: seq<Handle>, i: nat)
    requires i < |s| && Bridged(s, i)
    ensures Linked(Without(s, i))
  {
    var r := Without(s, i);
    forall t {:trigger r[t].prev} {:trigger r[t].next} | 0 <= t < |r|
      ensures r[t].prev == (if t == 0 then null else r[t - 1])
      ensures r[t].next == (if t + 1 == |r| then null else r[t + 1])
    {
      var u := if t < i then t else t + 1;
      assert r[t] == s[u];
      if t > 0 { assert r[t - 1] == s[if t - 1 < i then t - 1 else t]; }
      if t + 1 < |r| { assert r[t + 1] == s[if t + 1 < i then t + 1 else t + 2]; }
    }
    forall a, b | 0 <= a < b < |r| ensures r[a] != r[b] {
      assert r[a] == s[if a < i then a else a + 1] && r[b] == s[if b < i then b else b + 1];
    }
  }

  /** HASH_AKBI_INNER_LOOP: walk until an element ranks after `x`; null when none does. */
  method FindPlace(head: Handle, x: Handle, cmp: (Cache, Cache) -> int, ghost s: seq<Handle>) returns (it: Handle?)
    requires s != [] && head == s[0] && Linked(s)
    ensures var p := Place(s, x, cmp);
            && (it == if p < |s| then s[p] else null)
            && (forall i :: 0 <= i < p ==> cmp(s[i].elt, x.elt) <= 0) && (p < |s| ==> cmp(s[p].elt, x.elt) > 0)
  {
    PlaceMeans(s, x, cmp);
    it := head;
    ghost var m := 0;
    while it != null
      invariant 0 <= m <= |s| && it == (if m == |s| then null else s[m])
      invariant Place(s, x, cmp) == m + Place(s[m..], x, cmp)
      decreases |s| - m
    {
      if Gt(it, x, cmp) {
        break;
      }
      it, m := it.next, m + 1;
    }
  }
}
