/**
  The list operations the scheduler performs on its catalog and its active set:
  first-match search by name, the optional-name lookup, order-preserving
  filtering, and the insertion position chosen at activation.
 */
module TaskLists {
  import opened Tasks

  /** Some record in `s` is named `name`. */
  predicate HasName(s: seq<Task>, name: string) {
    exists k | 0 <= k < |s| :: s[k].name == name
  }

  /** `a` is `b` with some elements left out and the rest in their original order. */
  predicate IsSubsequence<T(==)>(a: seq<T>, b: seq<T>)
    decreases |b|
  {
    if a == [] then true
    else if b == [] then false
    else if a[0] == b[0] then IsSubsequence(a[1..], b[1..])
    else IsSubsequence(a, b[1..])
  }

  predicate NoDuplicates<T(==)>(s: seq<T>) {
    forall i, j | 0 <= i < j < |s| :: s[i] != s[j]
  }

  /** No two different identifiers of `ids` refer to records with the same name. */
  predicate DistinctNames(arena: map<Id, Task>, ids: seq<Id>) {
    forall x, y | x in ids && y in ids && x in arena && y in arena && arena[x].name == arena[y].name :: x == y
  }

  /** Every identifier of `ids` names a record of `arena`. */
  predicate Covers(arena: map<Id, Task>, ids: seq<Id>) {
    forall id | id in ids :: id in arena
  }

  /** The records a list of identifiers refers to, in list order. */
  function Records(arena: map<Id, Task>, ids: seq<Id>): (r: seq<Task>)
    requires Covers(arena, ids)
    ensures |r| == |ids| && forall k | 0 <= k < |ids| :: r[k] == arena[ids[k]]
  {
    seq(|ids|, k requires 0 <= k < |ids| => arena[ids[k]])
  }

  /**
    `findIndex` by name: the position of the first record named `name`, or -1
    when there is none.
   */
  function FindIndex(s: seq<Task>, name: string): (i: int)
    ensures -1 <= i < |s|
    ensures i == -1 <==> !HasName(s, name)
    ensures 0 <= i ==> s[i].name == name && !HasName(s[..i], name)
  {
    if s == [] then -1
    else if s[0].name == name then 0
    else
      var i := FindIndex(s[1..], name);
      if i == -1 then -1
      else
        assert s[..i + 1] == [s[0]] + s[1..][..i];
        i + 1
  }

  /** What `getTasks` and `getCurrentTasks` return. */
  datatype Found = NotFound | One(task: Task) | All(tasks: seq<Task>)

  /**
    Lookup with an optional name: an empty name yields the whole list; any other
    name yields the first record with that name, or nothing.
   */
  function Lookup(s: seq<Task>, name: string): (r: Found)
    ensures name == "" <==> r.All?
    ensures r.All? ==> r.tasks == s
    ensures name != "" ==> (r.One? <==> HasName(s, name))
    ensures r.One? ==> exists k | 0 <= k < |s| :: s[k] == r.task && r.task.name == name && !HasName(s[..k], name)
  {
    if name != "" then
      var k := FindIndex(s, name);
      if k == -1 then NotFound else One(s[k])
    else All(s)
  }

  /**
    Where activation inserts task `t` into the active list `active`: right
    before the first record named `t.before` if that name is set and active;
    at the end if it is set but not active (then `t.after` is ignored); right
    after the first record named `t.after` if only that name is set and it is
    active; at the end otherwise.
   */
  function Placement(active: seq<Task>, t: Task): (p: nat)
    ensures p <= |active|
    ensures t.before != "" && HasName(active, t.before) ==>
      p < |active| && active[p].name == t.before && !HasName(active[..p], t.before)
    ensures t.before != "" && !HasName(active, t.before) ==> p == |active|
    ensures t.before == "" && t.after != "" && HasName(active, t.after) ==>
      0 < p && active[p - 1].name == t.after && !HasName(active[..p - 1], t.after)
    ensures t.before == "" && (t.after == "" || !HasName(active, t.after)) ==> p == |active|
  {
    if t.before != "" then
      var b := FindIndex(active, t.before);
      if b > -1 then b else |active|
    else if t.after != "" then
      var a := FindIndex(active, t.after);
      if a > -1 then a + 1 else |active|
    else |active|
  }

  /**
    `filter`: the elements of `s` that satisfy `keep`, in their original order.
   */
  function Filter<T(==)>(s: seq<T>, keep: T -> bool): (r: seq<T>)
    ensures IsSubsequence(r, s)
    ensures forall x | x in r :: x in s && keep(x)
    ensures forall x | x in s && keep(x) :: x in r
    ensures NoDuplicates(s) ==> NoDuplicates(r)
    ensures (forall x | x in s :: keep(x)) ==> r == s
  {
    if s == [] then []
    else
      var rest := Filter(s[1..], keep);
      if keep(s[0]) then
        assert s == [s[0]] + s[1..];
        assert ([s[0]] + rest)[1..] == rest;
        [s[0]] + rest
      else
        assert rest != [] ==> rest[0] in rest;
        rest
  }

  /** Filtering a list extended at its end filters the extension on its own. */
  lemma {:induction false} FilterSnoc<T>(s: seq<T>, x: T, keep: T -> bool)
    ensures Filter(s + [x], keep) == Filter(s, keep) + (if keep(x) then [x] else [])
  {
    if s != [] {
      assert (s + [x])[1..] == s[1..] + [x];
      FilterSnoc(s[1..], x, keep);
    }
  }

  /** The field a removal compares against. */
  datatype Key = ByName | ByGroup

  function KeyOf(t: Task, key: Key): string {
    match key
    case ByName => t.name
    case ByGroup => t.group
  }

  /**
    The identifiers of `ids` whose record's `key` field differs from `v`, in
    their original order: the filters of `delTask`, `delGroupTask` and `stopTask`.
   */
  function Without(ids: seq<Id>, arena: map<Id, Task>, key: Key, v: string): (r: seq<Id>)
    requires Covers(arena, ids)
    ensures IsSubsequence(r, ids)
    ensures forall id :: id in r <==> id in ids && KeyOf(arena[id], key) != v
    ensures NoDuplicates(ids) ==> NoDuplicates(r)
    ensures (forall id | id in ids :: KeyOf(arena[id], key) != v) ==> r == ids
  {
    Filter(ids, id => id in arena && KeyOf(arena[id], key) != v)
  }

  /**
    `s` with `x` inserted at position `p`: what `splice(p, 0, x)` leaves, and
    what `push(x)` leaves when `p` is the length.
   */
  function Splice<T>(s: seq<T>, p: nat, x: T): (r: seq<T>)
    requires p <= |s|
    ensures |r| == |s| + 1 && r[p] == x
    ensures r[..p] == s[..p] && r[p + 1..] == s[p..]
  {
    s[..p] + [x] + s[p..]
  }

  /** The shape of `s` with `x` spliced in at position `p`. */
  lemma SpliceFacts<T>(s: seq<T>, p: nat, x: T)
    requires p <= |s|
    ensures var t := Splice(s, p, x);
      && |t| == |s| + 1 && t[p] == x
      && (forall k | 0 <= k < p :: t[k] == s[k])
      && (forall k | p < k < |t| :: t[k] == s[k - 1])
      && (forall y | y in t :: y == x || y in s)
      && (forall y | y in s :: y in t)
  {
    assert s == s[..p] + s[p..];
  }

  /** Splicing an element that is not yet in a duplicate-free list keeps it duplicate-free. */
  lemma SpliceNoDuplicates<T>(s: seq<T>, p: nat, x: T)
    requires p <= |s| && NoDuplicates(s) && x !in s
    ensures NoDuplicates(Splice(s, p, x))
  {
    SpliceFacts(s, p, x);
    var t := Splice(s, p, x);
    forall i, j | 0 <= i < j < |t|
      ensures t[i] != t[j]
    {
      if i == p {
        assert t[j] == s[j - 1];
      } else if j == p {
        assert t[i] == s[i];
      }
    }
  }

  /** Appending an element that is not yet in a duplicate-free list keeps it duplicate-free. */
  lemma AppendNoDuplicates<T>(s: seq<T>, x: T)
    requires NoDuplicates(s) && x !in s
    ensures NoDuplicates(s + [x])
  {
    var t := s + [x];
    forall i, j | 0 <= i < j < |t|
      ensures t[i] != t[j]
    {
      if j == |s| {
        assert t[i] == s[i];
      }
    }
  }

  /** A prefix of a duplicate-free list is duplicate-free and misses the next element. */
  lemma PrefixNoDuplicates<T>(s: seq<T>, i: nat)
    requires NoDuplicates(s) && i < |s|
    ensures NoDuplicates(s[..i]) && s[i] !in s[..i]
    ensures s[..i + 1] == s[..i] + [s[i]]
  {
  }

  lemma {:induction false} SubsequenceReflexive<T>(s: seq<T>)
    ensures IsSubsequence(s, s)
  {
    if s != [] {
      SubsequenceReflexive(s[1..]);
    }
  }

  /** Inserting a new element anywhere keeps the old list as a subsequence. */
  lemma {:induction false} InsertKeepsOrder<T>(s: seq<T>, p: nat, x: T)
    requires p <= |s| && x !in s
    ensures IsSubsequence(s, Splice(s, p, x))
  {
    var t := Splice(s, p, x);
    if p == 0 {
      assert t == [x] + s;
      SubsequenceReflexive(s);
      if s != [] {
        assert s[0] != x;
        assert t[1..] == s;
      }
    } else {
      InsertKeepsOrder(s[1..], p - 1, x);
      assert t[0] == s[0];
      assert t[1..] == s[1..][..p - 1] + [x] + s[1..][p - 1..];
    }
  }

  /** Removing with the same key twice removes nothing more: `stopTask` is idempotent. */
  lemma WithoutIdempotent(ids: seq<Id>, arena: map<Id, Task>, key: Key, v: string)
    requires Covers(arena, ids)
    ensures Without(Without(ids, arena, key, v), arena, key, v) == Without(ids, arena, key, v)
  {
  }
}
