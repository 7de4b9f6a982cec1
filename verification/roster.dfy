/** The array primitives a room's roster is manipulated with: the searches
    by identity and by name, the one-element splice, the filter that keeps
    connected players, and the reordering applied at the start of a round. */
module Roster {
  import opened GameTypes

  /** There is a seat whose occupant carries this display name. */
  predicate HasName(users: seq<User>, name: string) {
    exists k :: 0 <= k < |users| && users[k].name == name
  }

  /** There is a seat holding the connection object with this identity. */
  predicate HasId(users: seq<User>, id: nat) {
    exists k :: 0 <= k < |users| && users[k].id == id
  }

  /** `indexOf`: the first position holding this very connection object,
      or -1 when there is none. `indexOf` compares references, so only the
      identity counts, whatever the object's fields read. */
  function IndexOf(users: seq<User>, u: User): (i: int)
    ensures -1 <= i < |users|
    ensures i == -1 <==> !HasId(users, u.id)
    ensures 0 <= i ==> users[i].id == u.id && forall k :: 0 <= k < i ==> users[k].id != u.id
  {
    if |users| == 0 then -1
    else if users[0].id == u.id then 0
    else
      var j := IndexOf(users[1..], u);
      if j == -1 then
        assert forall k :: 1 <= k < |users| ==> users[k].id == users[1..][k - 1].id;
        -1
      else j + 1
  }

  /** `findIndex(u => u.name === name)`: the first seat whose occupant has
      this name, or -1. */
  function FindIndexByName(users: seq<User>, name: string): (i: int)
    ensures -1 <= i < |users|
    ensures i == -1 <==> !HasName(users, name)
    ensures 0 <= i ==> users[i].name == name && forall k :: 0 <= k < i ==> users[k].name != name
  {
    if |users| == 0 then -1
    else if users[0].name == name then 0
    else
      var j := FindIndexByName(users[1..], name);
      if j == -1 then
        assert forall k :: 1 <= k < |users| ==> users[k].name == users[1..][k - 1].name;
        -1
      else j + 1
  }

  /** `splice(start, 1)` on an array, as ECMAScript defines it: a negative
      start counts from the end (clamped to 0), a start past the end is
      clamped to the length, and nothing is removed when the clamped start
      is the length. */
  function SpliceOne<T>(s: seq<T>, start: int): (r: seq<T>)
    ensures -|s| <= start < |s| ==> |r| == |s| - 1
    ensures start >= |s| ==> r == s
    ensures multiset(r) <= multiset(s)
  {
    var k := if start < 0 then (if |s| + start < 0 then 0 else |s| + start)
             else (if start > |s| then |s| else start);
    if k < |s| then
      assert s == s[..k] + [s[k]] + s[k + 1..];
      s[..k] + s[k + 1..]
    else s
  }

  /** A splice at a position removes exactly the element there; a splice
      at -1 removes the last element. */
  lemma SpliceOneRemoves<T>(s: seq<T>, i: int)
    requires -1 <= i < |s|
    ensures 0 <= i ==> SpliceOne(s, i) == s[..i] + s[i + 1..]
                       && multiset(SpliceOne(s, i)) == multiset(s) - multiset{s[i]}
    ensures i == -1 && |s| > 0 ==> SpliceOne(s, i) == s[..|s| - 1]
    ensures i == -1 && |s| == 0 ==> SpliceOne(s, i) == []
  {
    if 0 <= i {
      assert s == s[..i] + [s[i]] + s[i + 1..];
    } else if |s| > 0 {
      assert s[|s| - 1 + 1..] == [];
    }
  }

  /** `filter(u => u.connected)`. */
  function KeepConnected(users: seq<User>): (r: seq<User>)
    ensures |r| <= |users|
    ensures forall u :: u in r <==> u in users && u.connected
  {
    if |users| == 0 then []
    else if users[0].connected then [users[0]] + KeepConnected(users[1..])
    else KeepConnected(users[1..])
  }

  /** Filtering distributes over concatenation: together with its effect on
      one-element rosters, this pins down that the survivors keep their
      relative order. */
  lemma {:induction false} KeepConnectedAppend(a: seq<User>, b: seq<User>)
    ensures KeepConnected(a + b) == KeepConnected(a) + KeepConnected(b)
  {
    if |a| == 0 {
      assert a + b == b;
    } else {
      assert (a + b)[0] == a[0];
      assert (a + b)[1..] == a[1..] + b;
      KeepConnectedAppend(a[1..], b);
    }
  }

  /** Every connected player keeps all of their seats, every disconnected
      one loses all of them. */
  lemma {:induction false} KeepConnectedCounts(users: seq<User>)
    ensures forall u :: multiset(KeepConnected(users))[u] == if u.connected then multiset(users)[u] else 0
  {
    if |users| > 0 {
      KeepConnectedCounts(users[1..]);
      assert users == [users[0]] + users[1..];
    }
  }

  /** A roster with nobody disconnected is left as it is. */
  lemma {:induction false} KeepConnectedAllConnected(users: seq<User>)
    requires forall k :: 0 <= k < |users| ==> users[k].connected
    ensures KeepConnected(users) == users
  {
    if |users| > 0 {
      KeepConnectedAllConnected(users[1..]);
      assert users == [users[0]] + users[1..];
    }
  }

  /** Filtering twice is filtering once. */
  lemma KeepConnectedIdempotent(users: seq<User>)
    ensures KeepConnected(KeepConnected(users)) == KeepConnected(users)
  {
    var r := KeepConnected(users);
    assert forall k :: 0 <= k < |r| ==> r[k] in r;
    KeepConnectedAllConnected(r);
  }

  /** The indices 0, 1, ..., n - 1 in order. */
  function Range(n: nat): (r: seq<nat>)
  {
    seq(n, k requires 0 <= k < n => k as nat)
  }

  /** Every entry of `order` is a position of an n-element array. */
  predicate InBounds(order: seq<nat>, n: nat) {
    forall k :: 0 <= k < |order| ==> order[k] < n
  }

  /** `order` lists every index of an n-element array exactly once: the
      outcome of shuffling such an array in place. */
  predicate IsPermutation(order: seq<nat>, n: nat) {
    multiset(order) == multiset(Range(n))
  }

  lemma PermutationBounds(order: seq<nat>, n: nat)
    requires IsPermutation(order, n)
    ensures |order| == n && InBounds(order, n)
  {
    assert |multiset(order)| == |multiset(Range(n))|;
    forall k | 0 <= k < |order|
      ensures order[k] < n
    {
      assert order[k] in multiset(order);
      assert order[k] in Range(n);
    }
  }

  /** The array after a reordering that moved index `order[k]` to
      position `k`. */
  function Permute<T>(s: seq<T>, order: seq<nat>): (r: seq<T>)
    requires InBounds(order, |s|)
    ensures |r| == |order|
  {
    seq(|order|, k requires 0 <= k < |order| => s[order[k]])
  }

  /** Taking the largest index out of a permutation of n indices leaves a
      permutation of n - 1 indices. */
  lemma RemoveLargestIndex(order: seq<nat>, n: nat) returns (k: nat)
    requires n > 0 && IsPermutation(order, n)
    ensures k < |order| == n && order[k] == n - 1
    ensures IsPermutation(order[..k] + order[k + 1..], n - 1)
  {
    PermutationBounds(order, n);
    var last: nat := n - 1;
    assert Range(n) == Range(last) + [last];
    assert last in Range(n);
    assert last in multiset(order);
    k :| 0 <= k < |order| && order[k] == last;
    var rest: seq<nat> := order[..k] + order[k + 1..];
    assert order == order[..k] + [last] + order[k + 1..];
    assert multiset(order) == multiset(order[..k]) + multiset{last} + multiset(order[k + 1..]);
    assert multiset(rest) == multiset(order[..k]) + multiset(order[k + 1..]);
    assert multiset(Range(n)) == multiset(Range(last)) + multiset{last};
    forall x: nat
      ensures multiset(rest)[x] == multiset(Range(last))[x]
    {
      assert multiset(order)[x] == multiset(rest)[x] + multiset{last}[x];
      assert multiset(Range(n))[x] == multiset(Range(last))[x] + multiset{last}[x];
    }
    assert multiset(rest) == multiset(Range(last));
  }

  /** The element moved by index `last` sits at position k, between the
      reordering of the other elements. */
  lemma PermuteSplitAt<T>(s: seq<T>, order: seq<nat>, k: nat)
    requires |s| > 0 && k < |order| && order[k] == |s| - 1
    requires InBounds(order, |s|) && InBounds(order[..k] + order[k + 1..], |s| - 1)
    ensures var p' := Permute(s[..|s| - 1], order[..k] + order[k + 1..]);
            Permute(s, order) == p'[..k] + [s[|s| - 1]] + p'[k..]
  {
    var rest := order[..k] + order[k + 1..];
    var p := Permute(s, order);
    var p' := Permute(s[..|s| - 1], rest);
    forall j | 0 <= j < |p|
      ensures p[j] == (p'[..k] + [s[|s| - 1]] + p'[k..])[j]
    {
      if j < k {
        assert rest[j] == order[j];
      } else if j > k {
        assert rest[j - 1] == order[j];
      }
    }
  }

  /** Reordering neither adds nor loses anybody. */
  lemma {:induction false} PermutePreservesMultiset<T>(s: seq<T>, order: seq<nat>)
    requires IsPermutation(order, |s|)
    ensures InBounds(order, |s|)
    ensures multiset(Permute(s, order)) == multiset(s)
  {
    PermutationBounds(order, |s|);
    var n := |s|;
    if n == 0 {
      assert order == [];
    } else {
      var k := RemoveLargestIndex(order, n);
      var rest := order[..k] + order[k + 1..];
      PermutationBounds(rest, n - 1);
      var s' := s[..n - 1];
      PermutePreservesMultiset(s', rest);
      PermuteSplitAt(s, order, k);
      var p' := Permute(s', rest);
      calc {
        multiset(Permute(s, order));
        multiset(p'[..k]) + multiset{s[n - 1]} + multiset(p'[k..]);
        { assert p' == p'[..k] + p'[k..]; }
        multiset(p') + multiset{s[n - 1]};
        { assert s == s' + [s[n - 1]]; }
        multiset(s);
      }
    }
  }
}
