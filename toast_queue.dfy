/** The ordering and replacement policy of the toast queue, stated on values:
    the records, the priorities, the lookup by key, the insertion point of a new
    toast, the add-or-replace step and the dismissal filter, with the lemmas that
    say what each of them keeps. The mutable store itself is in module Stores. */
module ToastQueue {

  datatype Option<T> = None | Some(value: T)

  /** 0 is the most urgent, 2 the least. */
  type Priority = p: int | 0 <= p <= 2

  const PRIORITY_REALTIME: Priority := 0
  const PRIORITY_DEFAULT: Priority := 1
  const PRIORITY_LOW: Priority := 2

  /** A toast as a caller hands it in: the priority may be missing.
      The payload (title, icon, component, props) is never inspected. */
  datatype ToastRequest<P> = ToastRequest(key: string, priority: Option<Priority>, payload: P)

  /** A toast as the store holds it: the priority is always present. */
  datatype Toast<P> = Toast(key: string, priority: Priority, payload: P)

  /** A missing priority becomes the default one; a given priority is kept. */
  function WithDefaultPriority<P>(req: ToastRequest<P>): (t: Toast<P>)
    ensures t.key == req.key && t.payload == req.payload
    ensures req.priority.None? ==> t.priority == PRIORITY_DEFAULT
    ensures req.priority.Some? ==> t.priority == req.priority.value
  {
    match req.priority
    case None => Toast(req.key, PRIORITY_DEFAULT, req.payload)
    case Some(p) => Toast(req.key, p, req.payload)
  }

  /** No two toasts share a key. */
  ghost predicate UniqueKeys<P>(s: seq<Toast<P>>) {
    forall i, j :: 0 <= i < j < |s| ==> s[i].key != s[j].key
  }

  /** Priorities are non-decreasing from front to back. */
  ghost predicate Sorted<P>(s: seq<Toast<P>>) {
    forall i, j :: 0 <= i < j < |s| ==> s[i].priority <= s[j].priority
  }

  ghost predicate KeyAbsent<P>(s: seq<Toast<P>>, key: string) {
    forall j :: 0 <= j < |s| ==> s[j].key != key
  }

  /** The index of the first toast with the given key, or -1 when there is none. */
  function IndexOfKey<P>(s: seq<Toast<P>>, key: string): (r: int)
    ensures -1 <= r < |s|
    ensures r == -1 <==> KeyAbsent(s, key)
    ensures r >= 0 ==> s[r].key == key && forall j :: 0 <= j < r ==> s[j].key != key
  {
    if |s| == 0 then -1
    else if s[0].key == key then 0
    else
      var r := IndexOfKey(s[1..], key);
      if r == -1 then -1 else r + 1
  }

  /** Where a new toast of priority p goes: the smallest index from which on
      every toast is strictly less urgent than p, so the toast before it (if any)
      is at least as urgent as p. */
  function InsertionPoint<P>(s: seq<Toast<P>>, p: Priority): (i: nat)
    ensures i <= |s|
    ensures i == 0 || s[i - 1].priority <= p
    ensures forall j :: i <= j < |s| ==> s[j].priority > p
  {
    if |s| == 0 || s[|s| - 1].priority <= p then |s|
    else InsertionPoint(s[..|s| - 1], p)
  }

  /** The effect of one add-or-replace on the list: a known key is overwritten
      where it stands, a new key is spliced in at its insertion point. */
  function Upsert<P>(s: seq<Toast<P>>, t: Toast<P>): (r: seq<Toast<P>>)
    ensures t in r
    ensures |r| == if KeyAbsent(s, t.key) then |s| + 1 else |s|
    ensures forall j :: 0 <= j < |r| ==> r[j] == t || r[j] in s
  {
    var oldIndex := IndexOfKey(s, t.key);
    if oldIndex == -1 then
      var i := InsertionPoint(s, t.priority);
      s[..i] + [t] + s[i..]
    else
      var r := s[oldIndex := t];
      assert r[oldIndex] == t;
      r
  }

  /** The list with every toast of the given key filtered out. */
  function Without<P>(s: seq<Toast<P>>, key: string): (r: seq<Toast<P>>)
    ensures |r| <= |s|
    ensures KeyAbsent(r, key)
  {
    if |s| == 0 then []
    else
      (if s[0].key == key then [] else [s[0]]) + Without(s[1..], key)
  }

  // ---------------------------------------------------------------------------
  // The insertion point

  /** The insertion point is the only index with its two defining properties. */
  lemma {:induction false} InsertionPointCharacterized<P>(s: seq<Toast<P>>, p: Priority, i: nat)
    requires i <= |s|
    ensures i == InsertionPoint(s, p) <==>
            (i == 0 || s[i - 1].priority <= p) && forall j :: i <= j < |s| ==> s[j].priority > p
  {
  }

  /** No smaller index has every toast from it on strictly less urgent than p. */
  lemma {:induction false} InsertionPointIsLeast<P>(s: seq<Toast<P>>, p: Priority, i: nat)
    requires i <= |s| && forall j :: i <= j < |s| ==> s[j].priority > p
    ensures InsertionPoint(s, p) <= i
  {
  }

  /** On a sorted list every toast in front of the insertion point is at least
      as urgent as p, and every toast behind it is strictly less urgent. */
  lemma {:induction false} InsertionPointSplitsSorted<P>(s: seq<Toast<P>>, p: Priority)
    requires Sorted(s)
    ensures forall j :: 0 <= j < |s| ==> (s[j].priority <= p <==> j < InsertionPoint(s, p))
  {
    var i := InsertionPoint(s, p);
    forall j | 0 <= j < |s|
      ensures s[j].priority <= p <==> j < i
    {
      if j < i {
        assert s[j].priority <= s[i - 1].priority;
      }
    }
  }

  // ---------------------------------------------------------------------------
  // Add or replace

  /** A new key grows the list by one: the new toast sits at the insertion point,
      the toasts in front of it and behind it are the old ones in their old order. */
  lemma {:induction false} UpsertNewKey<P>(s: seq<Toast<P>>, t: Toast<P>)
    requires KeyAbsent(s, t.key)
    ensures var r, i := Upsert(s, t), InsertionPoint(s, t.priority);
            |r| == |s| + 1 && r[i] == t &&
            r[..i] == s[..i] && r[i + 1..] == s[i..] &&
            (i == 0 || r[i - 1].priority <= t.priority) &&
            (forall j :: i < j < |r| ==> r[j].priority > t.priority)
  {
    var i := InsertionPoint(s, t.priority);
    assert IndexOfKey(s, t.key) == -1;
    var r := s[..i] + [t] + s[i..];
    assert Upsert(s, t) == r;
    assert r[..i] == s[..i];
    assert r[i + 1..] == s[i..];
    forall j | i < j < |r|
      ensures r[j].priority > t.priority
    {
      assert r[j] == s[j - 1];
    }
  }

  /** A known key keeps its index and length; the new record is at that index
      and every other toast is untouched, whatever the new priority is. */
  lemma {:induction false} UpsertExistingKey<P>(s: seq<Toast<P>>, t: Toast<P>)
    requires !KeyAbsent(s, t.key)
    ensures var r, i := Upsert(s, t), IndexOfKey(s, t.key);
            0 <= i && |r| == |s| && r[i] == t &&
            forall j :: 0 <= j < |s| && j != i ==> r[j] == s[j]
  {
  }

  /** Adding a new key to a sorted list keeps it sorted. */
  lemma {:induction false} UpsertNewKeepsSorted<P>(s: seq<Toast<P>>, t: Toast<P>)
    requires KeyAbsent(s, t.key) && Sorted(s)
    ensures Sorted(Upsert(s, t))
  {
    var r, i := Upsert(s, t), InsertionPoint(s, t.priority);
    InsertionPointSplitsSorted(s, t.priority);
    assert r == s[..i] + [t] + s[i..];
    forall a, b | 0 <= a < b < |r|
      ensures r[a].priority <= r[b].priority
    {
      if b < i {
        assert r[a] == s[a] && r[b] == s[b];
      } else if a > i {
        assert r[a] == s[a - 1] && r[b] == s[b - 1];
      } else if a < i {
        assert r[a] == s[a];
        if b > i { assert r[b] == s[b - 1]; }
      } else {
        assert r[b] == s[b - 1];
      }
    }
  }

  /** On a sorted list a new toast goes behind every toast at least as urgent
      (its own band included) and in front of every toast strictly less urgent. */
  lemma {:induction false} UpsertAppendsToBand<P>(s: seq<Toast<P>>, t: Toast<P>)
    requires KeyAbsent(s, t.key) && Sorted(s)
    ensures var r, i := Upsert(s, t), InsertionPoint(s, t.priority);
            r[i] == t &&
            (forall j :: 0 <= j < |s| && s[j].priority <= t.priority ==> j < i && r[j] == s[j]) &&
            (forall j :: 0 <= j < |s| && s[j].priority > t.priority ==> i <= j && r[j + 1] == s[j])
  {
    var r, i := Upsert(s, t), InsertionPoint(s, t.priority);
    InsertionPointSplitsSorted(s, t.priority);
    UpsertNewKey(s, t);
    forall j | 0 <= j < |s| && s[j].priority > t.priority
      ensures i <= j && r[j + 1] == s[j]
    {
      assert r[i + 1..][j - i] == s[i..][j - i];
    }
    forall j | 0 <= j < |s| && s[j].priority <= t.priority
      ensures j < i && r[j] == s[j]
    {
      assert r[..i][j] == s[..i][j];
    }
  }

  /** Replacing a toast by one of the same priority keeps a sorted list sorted. */
  lemma {:induction false} ReplaceSamePriorityKeepsSorted<P>(s: seq<Toast<P>>, t: Toast<P>)
    requires Sorted(s) && !KeyAbsent(s, t.key)
    requires s[IndexOfKey(s, t.key)].priority == t.priority
    ensures Sorted(Upsert(s, t))
  {
  }

  /** Replacing a toast by one of a different priority does not move it, so it
      can leave the list out of priority order. */
  lemma {:induction false} ReplaceCanUnsort<P>(x: P)
    ensures var s := [Toast("a", PRIORITY_DEFAULT, x), Toast("b", PRIORITY_DEFAULT, x)];
            Sorted(s) && UniqueKeys(s) &&
            Upsert(s, Toast("a", PRIORITY_LOW, x)) == [Toast("a", PRIORITY_LOW, x), Toast("b", PRIORITY_DEFAULT, x)] &&
            !Sorted(Upsert(s, Toast("a", PRIORITY_LOW, x)))
  {
    var s := [Toast("a", PRIORITY_DEFAULT, x), Toast("b", PRIORITY_DEFAULT, x)];
    assert IndexOfKey(s, "a") == 0;
    var r := Upsert(s, Toast("a", PRIORITY_LOW, x));
    assert r[0].priority > r[1].priority;
  }

  /** Adding or replacing keeps keys unique. */
  lemma {:induction false} UpsertKeepsUniqueKeys<P>(s: seq<Toast<P>>, t: Toast<P>)
    requires UniqueKeys(s)
    ensures UniqueKeys(Upsert(s, t))
  {
    if KeyAbsent(s, t.key) {
      var i := InsertionPoint(s, t.priority);
      assert IndexOfKey(s, t.key) == -1;
      assert Upsert(s, t) == s[..i] + [t] + s[i..];
      SpliceKeepsUniqueKeys(s, i, t);
    } else {
      UpsertExistingKey(s, t);
    }
  }

  /** Splicing a toast whose key is absent into a list with unique keys keeps them unique. */
  lemma {:induction false} SpliceKeepsUniqueKeys<P>(s: seq<Toast<P>>, i: nat, t: Toast<P>)
    requires i <= |s| && UniqueKeys(s) && KeyAbsent(s, t.key)
    ensures UniqueKeys(s[..i] + [t] + s[i..])
  {
    var r := s[..i] + [t] + s[i..];
    assert forall k :: 0 <= k < |r| ==> r[k] == if k < i then s[k] else if k == i then t else s[k - 1];
    forall a, b | 0 <= a < b < |r|
      ensures r[a].key != r[b].key
    {
      if a != i && b != i {
        var a', b' := if a < i then a else a - 1, if b < i then b else b - 1;
        assert a' < b';
      }
    }
  }

  /** Adding the same record twice is the same as adding it once. */
  lemma {:induction false} UpsertIdempotent<P>(s: seq<Toast<P>>, t: Toast<P>)
    ensures Upsert(Upsert(s, t), t) == Upsert(s, t)
  {
    var r := Upsert(s, t);
    assert t in r;
    var i := IndexOfKey(r, t.key);
    if KeyAbsent(s, t.key) {
      UpsertNewKey(s, t);
      var k := InsertionPoint(s, t.priority);
      assert r[k] == t;
      assert i == k by {
        forall j | 0 <= j < k ensures r[j].key != t.key {
          assert r[j] == s[j];
        }
      }
    } else {
      UpsertExistingKey(s, t);
      var k := IndexOfKey(s, t.key);
      assert i == k by {
        forall j | 0 <= j < k ensures r[j].key != t.key {
          assert r[j] == s[j];
        }
      }
    }
  }

  // ---------------------------------------------------------------------------
  // Dismiss

  /** Filtering distributes over concatenation: the kept toasts stay in order. */
  lemma {:induction false} WithoutAppend<P>(a: seq<Toast<P>>, b: seq<Toast<P>>, key: string)
    ensures Without(a + b, key) == Without(a, key) + Without(b, key)
  {
    if |a| == 0 {
      assert a + b == b;
    } else {
      assert (a + b)[0] == a[0];
      assert (a + b)[1..] == a[1..] + b;
      WithoutAppend(a[1..], b, key);
    }
  }

  /** Dismissal keeps exactly the toasts of other keys: everything it returns
      was there before, and every toast of another key is still there. */
  lemma {:induction false} WithoutMembers<P>(s: seq<Toast<P>>, key: string)
    ensures forall j :: 0 <= j < |Without(s, key)| ==> Without(s, key)[j] in s
    ensures forall j :: 0 <= j < |s| && s[j].key != key ==> s[j] in Without(s, key)
  {
    if |s| > 0 {
      WithoutMembers(s[1..], key);
      var head := if s[0].key == key then [] else [s[0]];
      var rest := Without(s[1..], key);
      assert Without(s, key) == head + rest;
      forall j | 0 <= j < |head + rest| ensures (head + rest)[j] in s {
        if j >= |head| { assert (head + rest)[j] == rest[j - |head|]; }
      }
      forall j | 0 <= j < |s| && s[j].key != key ensures s[j] in head + rest {
        if j > 0 { assert s[j] == s[1..][j - 1]; }
      }
    }
  }

  /** Dismissing a key that is not there leaves the list as it was. */
  lemma {:induction false} WithoutAbsent<P>(s: seq<Toast<P>>, key: string)
    requires KeyAbsent(s, key)
    ensures Without(s, key) == s
  {
    if |s| > 0 {
      WithoutAbsent(s[1..], key);
      assert s == [s[0]] + s[1..];
    }
  }

  /** Every toast that is kept stays; the dismissed key's toasts go: the length
      drops by exactly the number of toasts carrying the key. */
  lemma {:induction false} WithoutLength<P>(s: seq<Toast<P>>, key: string)
    ensures |Without(s, key)| == |s| - CountKey(s, key)
  {
    if |s| > 0 {
      WithoutLength(s[1..], key);
    }
  }

  /** The number of toasts carrying the key. */
  function CountKey<P>(s: seq<Toast<P>>, key: string): (n: nat)
    ensures n <= |s|
    ensures n == 0 <==> KeyAbsent(s, key)
  {
    if |s| == 0 then 0
    else (if s[0].key == key then 1 else 0) + CountKey(s[1..], key)
  }

  /** With unique keys, dismissing a present key removes exactly that one toast. */
  lemma {:induction false} DismissRemovesOne<P>(s: seq<Toast<P>>, key: string)
    requires UniqueKeys(s) && !KeyAbsent(s, key)
    ensures var i := IndexOfKey(s, key);
            Without(s, key) == s[..i] + s[i + 1..]
  {
    var i := IndexOfKey(s, key);
    var front, back := s[..i], s[i + 1..];
    assert s == front + [s[i]] + back;
    assert KeyAbsent(back, key) by {
      forall j | 0 <= j < |back| ensures back[j].key != key {
        assert back[j] == s[i + 1 + j];
      }
    }
    WithoutAroundMatch(front, s[i], back, key);
  }

  /** Filtering a key out of a list that holds it once, between two parts that
      do not hold it, leaves the two parts. */
  lemma {:induction false} WithoutAroundMatch<P>(front: seq<Toast<P>>, x: Toast<P>, back: seq<Toast<P>>, key: string)
    requires KeyAbsent(front, key) && KeyAbsent(back, key) && x.key == key
    ensures Without(front + [x] + back, key) == front + back
  {
    var one: seq<Toast<P>> := [x];
    assert Without(front + one + back, key) == Without(front + one, key) + Without(back, key) by {
      WithoutAppend(front + one, back, key);
    }
    assert Without(front + one, key) == Without(front, key) + Without(one, key) by {
      WithoutAppend(front, one, key);
    }
    assert Without(one, key) == [] by {
      WithoutMatch(x, key);
    }
    assert Without(front, key) == front && Without(back, key) == back by {
      WithoutAbsent(front, key);
      WithoutAbsent(back, key);
    }
  }

  lemma {:induction false} WithoutMatch<P>(x: Toast<P>, key: string)
    requires x.key == key
    ensures Without([x], key) == []
  {
    assert [x][1..] == [];
  }

  /** Dismissal keeps keys unique. */
  lemma {:induction false} WithoutKeepsUniqueKeys<P>(s: seq<Toast<P>>, key: string)
    requires UniqueKeys(s)
    ensures UniqueKeys(Without(s, key))
  {
    if |s| > 0 {
      WithoutKeepsUniqueKeys(s[1..], key);
      var rest := Without(s[1..], key);
      WithoutMembers(s[1..], key);
      forall j | 0 <= j < |rest| ensures rest[j].key != s[0].key {
        assert rest[j] in s[1..];
      }
    }
  }

  /** Dismissal keeps a sorted list sorted. */
  lemma {:induction false} WithoutKeepsSorted<P>(s: seq<Toast<P>>, key: string)
    requires Sorted(s)
    ensures Sorted(Without(s, key))
  {
    if |s| > 0 {
      WithoutKeepsSorted(s[1..], key);
      var rest := Without(s[1..], key);
      WithoutMembers(s[1..], key);
      forall j | 0 <= j < |rest| ensures s[0].priority <= rest[j].priority {
        assert rest[j] in s[1..];
      }
    }
  }

  /** Dismissing a key that was just added as new gives back the old list. */
  lemma {:induction false} AddThenDismiss<P>(s: seq<Toast<P>>, t: Toast<P>)
    requires KeyAbsent(s, t.key)
    ensures Without(Upsert(s, t), t.key) == s
  {
    var i := InsertionPoint(s, t.priority);
    UpsertNewKey(s, t);
    var front, back := s[..i], s[i..];
    assert Upsert(s, t) == front + [t] + back;
    assert KeyAbsent(front, t.key) by {
      forall j | 0 <= j < |front| ensures front[j].key != t.key {
        assert front[j] == s[j];
      }
    }
    assert KeyAbsent(back, t.key) by {
      forall j | 0 <= j < |back| ensures back[j].key != t.key {
        assert back[j] == s[i + j];
      }
    }
    WithoutAroundMatch(front, t, back, t.key);
    assert front + back == s;
  }

  // ---------------------------------------------------------------------------
  // Any run of calls

  /** A call on the store, as a producer or the host makes it. */
  datatype Call<P> = Add(request: ToastRequest<P>) | Dismiss(key: string) | Reset

  /** The list after the calls, in order, starting from s. */
  function Run<P>(s: seq<Toast<P>>, calls: seq<Call<P>>): seq<Toast<P>>
    decreases |calls|
  {
    if |calls| == 0 then s
    else
      var next := match calls[0]
        case Add(req) => Upsert(s, WithDefaultPriority(req))
        case Dismiss(key) => Without(s, key)
        case Reset => [];
      Run(next, calls[1..])
  }

  /** Whatever calls are made, keys stay unique; in particular from the empty list. */
  lemma {:induction false} RunKeepsUniqueKeys<P>(s: seq<Toast<P>>, calls: seq<Call<P>>)
    requires UniqueKeys(s)
    ensures UniqueKeys(Run(s, calls))
    decreases |calls|
  {
    if |calls| > 0 {
      match calls[0]
      case Add(req) =>
        UpsertKeepsUniqueKeys(s, WithDefaultPriority(req));
        RunKeepsUniqueKeys(Upsert(s, WithDefaultPriority(req)), calls[1..]);
      case Dismiss(key) =>
        WithoutKeepsUniqueKeys(s, key);
        RunKeepsUniqueKeys(Without(s, key), calls[1..]);
      case Reset =>
        RunKeepsUniqueKeys([], calls[1..]);
    }
  }
}
