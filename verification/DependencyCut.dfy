/** Pulling the recovery point back over the logged dependencies: an insertion sort in place, then one
    descending pass. */
module DependencyCut {
  import opened Recoverable

  ghost predicate SortedBySrc(s: seq<Dep>) {
    forall i, j :: 0 <= i < j < |s| ==> s[i].src <= s[j].src
  }

  method Swap(a: array<Dep>, j: nat)
    requires 0 < j < a.Length
    modifies a
    ensures a[j - 1] == old(a[j]) && a[j] == old(a[j - 1])
    ensures forall k :: 0 <= k < a.Length && k != j && k != j - 1 ==> a[k] == old(a[k])
    ensures multiset(a[..]) == multiset(old(a[..]))
  {
    a[j - 1], a[j] := a[j], a[j - 1];
  }

  /** Elements 0 to i are in order, leaving out the one at j. */
  ghost predicate SortedBut(a: array<Dep>, i: nat, j: nat)
    requires i < a.Length
    reads a
  {
    forall x, y :: 0 <= x < y <= i && x != j && y != j ==> a[x].src <= a[y].src
  }

  /** One round of the sort: the element at i sinks to its place among those before it. */
  method Sink(a: array<Dep>, i: nat)
    requires 0 < i < a.Length
    requires forall x, y :: 0 <= x < y < i ==> a[x].src <= a[y].src
    modifies a
    ensures forall x, y :: 0 <= x < y <= i ==> a[x].src <= a[y].src
    ensures multiset(a[..]) == multiset(old(a[..]))
  {
    var j := i;
    while j != 0
      invariant 0 <= j <= i
      invariant SortedBut(a, i, j)
      invariant forall y :: j < y <= i ==> a[j].src <= a[y].src
      invariant multiset(a[..]) == multiset(old(a[..]))
    {
      if a[j].src < a[j - 1].src {
        Swap(a, j);
      } else {
        break;
      }
      j := j - 1;
    }
  }

  method InsertionSort(a: array<Dep>)
    modifies a
    ensures SortedBySrc(a[..])
    ensures multiset(a[..]) == multiset(old(a[..]))
  {
    var i := 1;
    while i < a.Length
      invariant 1 <= i <= a.Length || (i == 1 && a.Length == 0)
      invariant forall x, y :: 0 <= x < y < i && y < a.Length ==> a[x].src <= a[y].src
      invariant multiset(a[..]) == multiset(old(a[..]))
    {
      Sink(a, i);
      i := i + 1;
    }
  }

  /** The one descending pass finds the greatest cut not above limit that no dependency crosses. */
  method DescendingPass(a: array<Dep>, limit: nat) returns (cut: nat)
    requires SortedBySrc(a[..])
    ensures GreatestCut(a[..], limit, cut)
  {
    cut := limit;
    var i := 0;
    while i < a.Length
      invariant 0 <= i <= a.Length && cut <= limit
      invariant forall k :: a.Length - i <= k < a.Length ==> !(a[k].src < cut <= a[k].dst)
      invariant forall c: nat :: cut < c <= limit ==> !Uncrossed(a[..], c)
    {
      var idx := a.Length - i - 1;
      if a[idx].src < cut && cut <= a[idx].dst {
        forall c: nat | a[idx].src < c <= limit ensures !Uncrossed(a[..], c) {
          if c <= cut {
            assert a[..][idx].src < c <= a[..][idx].dst;
          }
        }
        forall k | idx <= k < a.Length ensures a[idx].src <= a[k].src {
          assert a[..][idx].src <= a[..][k].src;
        }
        cut := a[idx].src;
      }
      i := i + 1;
    }
  }

  /** Crossing does not depend on the order of the dependencies. */
  lemma CutOfPermutation(s: seq<Dep>, t: seq<Dep>, limit: nat, cut: nat)
    requires multiset(s) == multiset(t) && GreatestCut(s, limit, cut)
    ensures GreatestCut(t, limit, cut)
  {
    forall c: nat ensures Uncrossed(s, c) <==> Uncrossed(t, c) {
      if Uncrossed(s, c) {
        SameCrossings(s, t, c);
      }
      if Uncrossed(t, c) {
        SameCrossings(t, s, c);
      }
    }
  }

  lemma SameCrossings(s: seq<Dep>, t: seq<Dep>, c: nat)
    requires multiset(s) == multiset(t) && Uncrossed(s, c)
    ensures Uncrossed(t, c)
  {
    forall i | 0 <= i < |t| ensures !(t[i].src < c <= t[i].dst) {
      assert t[i] in multiset(t);
      assert t[i] in s;
    }
  }

  /** What pull_epoch_incomplete computes once the dependencies are collected. The array is the part of
      memory that holds the list; sorted is what stays there. */
  method PullBack(deps: seq<Dep>, limit: nat) returns (cut: nat, sorted: seq<Dep>)
    ensures GreatestCut(deps, limit, cut)
    ensures SortedBySrc(sorted) && multiset(sorted) == multiset(deps)
  {
    var a := new Dep[|deps|](i requires 0 <= i < |deps| => deps[i]);
    assert a[..] == deps;
    InsertionSort(a);
    cut := DescendingPass(a, limit);
    sorted := a[..];
    CutOfPermutation(sorted, deps, limit, cut);
  }

  /** The cut is the only one: a recovery that stops earlier loses requests it could keep, and one that
      stops later keeps a request whose predecessor was overwritten. */
  lemma GreatestCutUnique(deps: seq<Dep>, limit: nat, a: nat, b: nat)
    requires GreatestCut(deps, limit, a) && GreatestCut(deps, limit, b)
    ensures a == b
  {
  }

  /** Dependencies logged since a commit never pull the cut below the epoch after it. */
  lemma CutAboveCommit(deps: seq<Dep>, limit: nat, cut: nat, commit: int)
    requires GreatestCut(deps, limit, cut) && commit < limit && commit >= -1
    requires forall i :: 0 <= i < |deps| ==> commit < deps[i].src
    ensures commit < cut
  {
    if cut <= commit {
      assert Uncrossed(deps, (commit + 1) as nat);
    }
  }
}
