/** myne/signal.py: a signal keeps an ordered list of callbacks. `connect`
    appends, `disconnect` removes the first occurrence of each argument in
    turn (and silently skips an argument that is not connected), `emit` calls
    every entry in order.

    A callback is an opaque value of any type with equality; the list is a
    `seq`, and `emit` returns the sequence of callbacks it invokes. */
module Signal {

  /** `a` is `b` with some entries removed, the rest in their order. */
  predicate IsSubsequence<F(==)>(a: seq<F>, b: seq<F>)
    decreases |b|
  {
    if |a| == 0 then true
    else if |b| == 0 then false
    else if a[0] == b[0] then IsSubsequence(a[1..], b[1..])
    else IsSubsequence(a, b[1..])
  }

  /** The index of the first occurrence of `f`. */
  function IndexOf<F(==)>(s: seq<F>, f: F): (i: nat)
    requires f in s
    ensures i < |s| && s[i] == f
    ensures f !in s[..i]
  {
    if s[0] == f then 0
    else
      assert s == [s[0]] + s[1..];
      var k := IndexOf(s[1..], f);
      assert s[..k + 1] == [s[0]] + s[1..][..k];
      k + 1
  }

  /** `Signal.connect`: append the callback, duplicates included. */
  function Connect<F(==)>(slots: seq<F>, f: F): (r: seq<F>)
    ensures |r| == |slots| + 1
    ensures r[..|slots|] == slots && r[|slots|] == f
    ensures multiset(r) == multiset(slots) + multiset{f}
  {
    slots + [f]
  }

  /** `list.remove(f)` inside `try`/`except`: drop the first occurrence of
      `f`, or leave the list alone when `f` is not in it. */
  function RemoveFirst<F(==)>(slots: seq<F>, f: F): (r: seq<F>)
    ensures f !in slots ==> r == slots
    ensures f in slots ==>
      var i := IndexOf(slots, f);
      r == slots[..i] + slots[i + 1..]
    ensures multiset(r) == multiset(slots) - multiset{f}
  {
    if f !in slots then slots
    else
      var i := IndexOf(slots, f);
      assert slots == slots[..i] + [f] + slots[i + 1..];
      slots[..i] + slots[i + 1..]
  }

  /** `Signal.disconnect(*funcs)`: remove the first occurrence of each
      argument, in argument order. */
  function Disconnect<F(==)>(slots: seq<F>, funcs: seq<F>): (r: seq<F>)
    decreases |funcs|
  {
    if |funcs| == 0 then slots
    else Disconnect(RemoveFirst(slots, funcs[0]), funcs[1..])
  }

  /** `Signal.emit`: call every connected callback once per occurrence, in
      connection order. The calls are returned; the list is not changed. */
  method Emit<F(==)>(slots: seq<F>) returns (calls: seq<F>)
    ensures |calls| == |slots|
    ensures forall k :: 0 <= k < |slots| ==> calls[k] == slots[k]
  {
    calls := [];
    var i := 0;
    while i < |slots|
      invariant 0 <= i <= |slots|
      invariant |calls| == i
      invariant forall k :: 0 <= k < i ==> calls[k] == slots[k]
    {
      calls := calls + [slots[i]];
      i := i + 1;
    }
  }

  // -----------------------------------------------------------------------
  // Subsequences
  // -----------------------------------------------------------------------

  lemma {:induction false} SubsequenceOfSelf<F>(s: seq<F>)
    ensures IsSubsequence(s, s)
    decreases |s|
  {
    if |s| > 0 {
      SubsequenceOfSelf(s[1..]);
    }
  }

  /** Dropping the first entry of the longer list keeps a subsequence. */
  lemma {:induction false} SubsequenceOfTail<F>(a: seq<F>, b: seq<F>)
    requires |b| > 0 && IsSubsequence(a, b[1..])
    ensures IsSubsequence(a, b)
    decreases |b|, 0
  {
    if |a| > 0 && a[0] == b[0] {
      DropHead(a, b[1..]);
    }
  }

  /** Dropping the first entry of the shorter list keeps a subsequence. */
  lemma {:induction false} DropHead<F>(a: seq<F>, b: seq<F>)
    requires |a| > 0 && IsSubsequence(a, b)
    ensures IsSubsequence(a[1..], b)
    decreases |b|, 1
  {
    if a[0] == b[0] {
      SubsequenceOfTail(a[1..], b);
    } else {
      DropHead(a, b[1..]);
      SubsequenceOfTail(a[1..], b);
    }
  }

  /** A subsequence of a subsequence is a subsequence. */
  lemma {:induction false} SubsequenceTransitive<F>(a: seq<F>, b: seq<F>, c: seq<F>)
    requires IsSubsequence(a, b) && IsSubsequence(b, c)
    ensures IsSubsequence(a, c)
    decreases |c|
  {
    if |a| > 0 {
      if b[0] == c[0] {
        if a[0] == b[0] {
          SubsequenceTransitive(a[1..], b[1..], c[1..]);
        } else {
          SubsequenceTransitive(a, b[1..], c[1..]);
          SubsequenceOfTail(a, c);
        }
      } else {
        SubsequenceTransitive(a, b, c[1..]);
        SubsequenceOfTail(a, c);
      }
    }
  }

  /** Cutting out one entry leaves a subsequence. */
  lemma {:induction false} CutIsSubsequence<F>(s: seq<F>, i: nat)
    requires i < |s|
    ensures IsSubsequence(s[..i] + s[i + 1..], s)
    decreases i
  {
    if i == 0 {
      assert s[..0] + s[1..] == s[1..];
      SubsequenceOfSelf(s[1..]);
      SubsequenceOfTail(s[1..], s);
    } else {
      CutIsSubsequence(s[1..], i - 1);
      var cut := s[..i] + s[i + 1..];
      assert cut[0] == s[0];
      assert cut[1..] == s[1..][..i - 1] + s[1..][i..];
    }
  }

  // -----------------------------------------------------------------------
  // Properties of disconnect
  // -----------------------------------------------------------------------

  /** Taking `b` and then `c` away is taking their sum away. */
  lemma MinusSum<F>(a: multiset<F>, b: multiset<F>, c: multiset<F>)
    ensures (a - b) - c == a - (b + c)
  {
    forall x
      ensures ((a - b) - c)[x] == (a - (b + c))[x]
    {
    }
  }

  /** `disconnect` takes away one occurrence per argument wherever there is
      one to take: multiset difference, which saturates at zero. */
  lemma {:induction false} DisconnectCounts<F>(slots: seq<F>, funcs: seq<F>)
    ensures multiset(Disconnect(slots, funcs)) == multiset(slots) - multiset(funcs)
    decreases |funcs|
  {
    if |funcs| > 0 {
      var f := funcs[0];
      DisconnectCounts(RemoveFirst(slots, f), funcs[1..]);
      assert funcs == [f] + funcs[1..];
      MinusSum(multiset(slots), multiset{f}, multiset(funcs[1..]));
    }
  }

  /** `disconnect` keeps the remaining callbacks in their connection order. */
  lemma {:induction false} DisconnectKeepsOrder<F>(slots: seq<F>, funcs: seq<F>)
    ensures IsSubsequence(Disconnect(slots, funcs), slots)
    decreases |funcs|
  {
    if |funcs| == 0 {
      SubsequenceOfSelf(slots);
    } else {
      var f := funcs[0];
      var rest := RemoveFirst(slots, f);
      DisconnectKeepsOrder(rest, funcs[1..]);
      if f in slots {
        CutIsSubsequence(slots, IndexOf(slots, f));
      } else {
        SubsequenceOfSelf(slots);
      }
      SubsequenceTransitive(Disconnect(slots, funcs), rest, slots);
    }
  }

  /** Disconnecting callbacks none of which is connected changes nothing. */
  lemma {:induction false} DisconnectAbsent<F>(slots: seq<F>, funcs: seq<F>)
    requires forall k :: 0 <= k < |funcs| ==> funcs[k] !in slots
    ensures Disconnect(slots, funcs) == slots
    decreases |funcs|
  {
    if |funcs| > 0 {
      DisconnectAbsent(slots, funcs[1..]);
    }
  }

  /** Connecting and then disconnecting `f` always gives back the same
      callbacks, counted with multiplicity. */
  lemma ConnectDisconnectSameCallbacks<F>(slots: seq<F>, f: F)
    ensures multiset(Disconnect(Connect(slots, f), [f])) == multiset(slots)
  {
    DisconnectCounts(Connect(slots, f), [f]);
  }

  /** A callback that was not connected is removed again exactly. */
  lemma ConnectDisconnectFresh<F>(slots: seq<F>, f: F)
    requires f !in slots
    ensures Disconnect(Connect(slots, f), [f]) == slots
  {
    var s := Connect(slots, f);
    assert IndexOf(s, f) == |slots| by {
      assert f !in s[..|slots|];
    }
  }

  /** An index holding `f` with no `f` before it is the first occurrence. */
  lemma FirstIndex<F>(s: seq<F>, f: F, j: nat)
    requires j < |s| && s[j] == f && f !in s[..j]
    ensures IndexOf(s, f) == j
  {
  }

  /** Connecting an `f` that is already connected and disconnecting it
      again cuts out the first `f` and leaves the new one at the end. */
  lemma ConnectDisconnectPresent<F>(slots: seq<F>, f: F)
    requires f in slots
    ensures Disconnect(Connect(slots, f), [f])
      == slots[..IndexOf(slots, f)] + slots[IndexOf(slots, f) + 1..] + [f]
  {
    var s := Connect(slots, f);
    var i := IndexOf(slots, f);
    assert s[..i] == slots[..i];
    FirstIndex(s, f, i);
    assert Disconnect(s, [f]) == RemoveFirst(s, f) == s[..i] + s[i + 1..];
    assert s[i + 1..] == slots[i + 1..] + [f];
  }

  /** Cutting out entry `i` and appending `f` gives the list back when every
      entry from `i` on is `f`. */
  lemma ShiftOfRun<F>(s: seq<F>, i: nat, f: F)
    requires i < |s| && forall k :: i <= k < |s| ==> s[k] == f
    ensures s[..i] + s[i + 1..] + [f] == s
  {
    var r := s[..i] + s[i + 1..] + [f];
    forall k | 0 <= k < |s|
      ensures r[k] == s[k]
    {
      if i <= k < |s| - 1 {
        assert r[k] == s[k + 1];
      }
    }
  }

  /** ... and only then. */
  lemma ShiftNeedsRun<F>(s: seq<F>, i: nat, f: F, k: nat)
    requires i <= k < |s| && s[k] != f
    ensures s[..i] + s[i + 1..] + [f] != s
  {
    var r := s[..i] + s[i + 1..] + [f];
    if r == s {
      forall m | i <= m < |s| - 1
        ensures s[m] == s[m + 1]
      {
        assert r[m] == s[m + 1];
      }
      assert r[|s| - 1] == f;
      SameFromHere(s, i, k);
      assert false;
    }
  }

  /** Neighbours that are all equal make every later entry equal to the last. */
  lemma {:induction false} SameFromHere<F>(s: seq<F>, i: nat, k: nat)
    requires i <= k < |s|
    requires forall m :: i <= m < |s| - 1 ==> s[m] == s[m + 1]
    ensures s[k] == s[|s| - 1]
    decreases |s| - k
  {
    if k < |s| - 1 {
      SameFromHere(s, i, k + 1);
    }
  }

  /** Connecting and then disconnecting `f` gives the list back exactly
      when every entry from the first occurrence of `f` onwards is `f`
      (vacuously so when `f` was not connected): otherwise `disconnect`
      removes the earlier `f`, and the new one stays behind the callbacks
      that followed it. */
  lemma ConnectDisconnectRestores<F>(slots: seq<F>, f: F)
    ensures Disconnect(Connect(slots, f), [f]) == slots
      <==> (f in slots ==> forall k :: IndexOf(slots, f) <= k < |slots| ==> slots[k] == f)
  {
    if f !in slots {
      ConnectDisconnectFresh(slots, f);
    } else {
      ConnectDisconnectPresent(slots, f);
      var i := IndexOf(slots, f);
      if forall k :: i <= k < |slots| ==> slots[k] == f {
        ShiftOfRun(slots, i, f);
      } else {
        var k :| i <= k < |slots| && slots[k] != f;
        ShiftNeedsRun(slots, i, f, k);
      }
    }
  }
}
