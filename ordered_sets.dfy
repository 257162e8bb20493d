/** Lists used as ordered sets: an element is appended only when it is absent. */
module OrderedSets {

  predicate NoDuplicates(s: seq<string>) {
    forall i, j :: 0 <= i < j < |s| ==> s[i] != s[j]
  }

  /** `if x not in s: s.append(x)` */
  function Insert(s: seq<string>, x: string): (r: seq<string>)
    ensures x in r
    ensures x in s ==> r == s
    ensures x !in s ==> |r| == |s| + 1 && r[|s|] == x
  {
    if x in s then s else s + [x]
  }

  /** Insert keeps the old list as a prefix, adds `x` and nothing else, and never introduces a repeat. */
  lemma InsertMembers(s: seq<string>, x: string)
    ensures |s| <= |Insert(s, x)| <= |s| + 1 && Insert(s, x)[..|s|] == s
    ensures forall y :: y in Insert(s, x) <==> y in s || y == x
    ensures NoDuplicates(s) ==> NoDuplicates(Insert(s, x))
  {
  }

  /** Insert each element of `xs` in turn. */
  function InsertAll(s: seq<string>, xs: seq<string>): seq<string>
    decreases |xs|
  {
    if xs == [] then s else Insert(InsertAll(s, xs[..|xs| - 1]), xs[|xs| - 1])
  }

  /** Existing entries are never changed or moved: the old list is a prefix of the new one. */
  lemma {:induction false} InsertAllPrefix(s: seq<string>, xs: seq<string>)
    ensures |s| <= |InsertAll(s, xs)| && InsertAll(s, xs)[..|s|] == s
    decreases |xs|
  {
    if xs != [] {
      var mid := InsertAll(s, xs[..|xs| - 1]);
      InsertAllPrefix(s, xs[..|xs| - 1]);
      InsertMembers(mid, xs[|xs| - 1]);
      assert mid[..|s|] == s;
    }
  }

  /** Inserting elements that are all present changes nothing. */
  lemma {:induction false} InsertAllPresent(s: seq<string>, xs: seq<string>)
    requires forall i :: 0 <= i < |xs| ==> xs[i] in s
    ensures InsertAll(s, xs) == s
    decreases |xs|
  {
    if xs != [] {
      InsertAllPresent(s, xs[..|xs| - 1]);
    }
  }

  /** After inserting `xs`, the list holds exactly the old elements and those of `xs`. */
  lemma {:induction false} InsertAllMembers(s: seq<string>, xs: seq<string>)
    ensures forall y :: y in InsertAll(s, xs) <==> y in s || y in xs
    decreases |xs|
  {
    if xs != [] {
      var init := xs[..|xs| - 1];
      InsertAllMembers(s, init);
      InsertMembers(InsertAll(s, init), xs[|xs| - 1]);
      assert xs == init + [xs[|xs| - 1]];
    }
  }

  /** A duplicate-free list stays duplicate-free. */
  lemma {:induction false} InsertAllNoDuplicates(s: seq<string>, xs: seq<string>)
    requires NoDuplicates(s)
    ensures NoDuplicates(InsertAll(s, xs))
    decreases |xs|
  {
    if xs != [] {
      InsertAllNoDuplicates(s, xs[..|xs| - 1]);
      InsertMembers(InsertAll(s, xs[..|xs| - 1]), xs[|xs| - 1]);
    }
  }

  /** Everything past the old prefix is a new element taken from `xs`. */
  lemma {:induction false} InsertAllSuffix(s: seq<string>, xs: seq<string>)
    ensures forall k :: |s| <= k < |InsertAll(s, xs)| ==> InsertAll(s, xs)[k] in xs && InsertAll(s, xs)[k] !in s
    decreases |xs|
  {
    if xs != [] {
      var init := xs[..|xs| - 1];
      var mid := InsertAll(s, init);
      InsertAllSuffix(s, init);
      assert xs == init + [xs[|xs| - 1]];
      forall k | |s| <= k < |InsertAll(s, xs)|
        ensures InsertAll(s, xs)[k] in xs && InsertAll(s, xs)[k] !in s
      {
        if k >= |mid| {
          assert InsertAll(s, xs) == mid + [xs[|xs| - 1]];
          assert InsertAll(s, xs)[k] == xs[|xs| - 1];
          InsertAllMembers(s, init);
        } else {
          assert InsertAll(s, xs)[k] == mid[k];
        }
      }
    }
  }

  /** Inserting `a` then `b` is inserting `a + b`. */
  lemma {:induction false} InsertAllAppend(s: seq<string>, a: seq<string>, b: seq<string>)
    ensures InsertAll(s, a + b) == InsertAll(InsertAll(s, a), b)
    decreases |b|
  {
    if b == [] {
      assert a + b == a;
    } else {
      var initB := b[..|b| - 1];
      assert (a + b)[..|a + b| - 1] == a + initB;
      InsertAllAppend(s, a, initB);
    }
  }

  /** Inserting the same elements a second time changes nothing. */
  lemma InsertAllIdempotent(s: seq<string>, xs: seq<string>)
    ensures InsertAll(InsertAll(s, xs), xs) == InsertAll(s, xs)
  {
    InsertAllMembers(s, xs);
    InsertAllPresent(InsertAll(s, xs), xs);
  }
}
