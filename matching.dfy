/** The value-or-block matcher that `insert_after`, `insert_before`, `delete` and `delete_all` accept. */
module Matching {
  import opened Wrappers

  /** Either an equality target (the `val` argument) or a caller-supplied block. */
  datatype Matcher<!T> = Eq(target: T) | Pred(test: T -> bool)

  predicate Matches<T(==)>(m: Matcher<T>, e: T) {
    match m
    case Eq(v) => e == v
    case Pred(f) => f(e)
  }

  /**
   * Builds the matcher from the optional value and optional block. Supplying both raises
   * `ArgumentError`. With neither, the source compares each element with nil; the model's
   * elements are never nil, so that matcher matches nothing.
   */
  function ToMatcher<T(==)>(val: Option<T>, block: Option<T -> bool>): (r: Result<Matcher<T>>)
    ensures r.ArgumentError? <==> val.Some? && block.Some?
  {
    if val.Some? && block.Some? then ArgumentError
    else if block.Some? then Ok(Pred(block.value))
    else if val.Some? then Ok(Eq(val.value))
    else Ok(Pred(_ => false))
  }

  /** What the built matcher accepts: the block's verdict, equality with the value, or nothing. */
  lemma ToMatcherMeaning<T>(val: Option<T>, block: Option<T -> bool>, e: T)
    requires ToMatcher(val, block).Ok?
    ensures block.Some? ==> Matches(ToMatcher(val, block).value, e) == block.value(e)
    ensures val.Some? ==> (Matches(ToMatcher(val, block).value, e) <==> e == val.value)
    ensures val.None? && block.None? ==> !Matches(ToMatcher(val, block).value, e)
  {
  }

  /** Position of the first element that matches, as `find` locates it walking from the head. */
  function IndexOfFirst<T(==)>(s: seq<T>, m: Matcher<T>): (r: Option<nat>)
    ensures r.Some? ==> r.value < |s| && Matches(m, s[r.value])
    ensures r.Some? ==> forall j :: 0 <= j < r.value ==> !Matches(m, s[j])
    ensures r.None? <==> forall j :: 0 <= j < |s| ==> !Matches(m, s[j])
  {
    if |s| == 0 then None
    else if Matches(m, s[0]) then Some(0)
    else match IndexOfFirst(s[1..], m)
      case None => None
      case Some(k) => Some(k + 1)
  }

  /** The matching elements in encounter order, as `select` collects them. */
  function Select<T(==)>(s: seq<T>, m: Matcher<T>): (r: seq<T>)
    ensures forall i :: 0 <= i < |r| ==> Matches(m, r[i])
  {
    if |s| == 0 then []
    else if Matches(m, s[0]) then [s[0]] + Select(s[1..], m)
    else Select(s[1..], m)
  }

  /** The elements that do not match, in their original relative order. */
  function Reject<T(==)>(s: seq<T>, m: Matcher<T>): (r: seq<T>)
    ensures forall i :: 0 <= i < |r| ==> !Matches(m, r[i])
  {
    if |s| == 0 then []
    else if Matches(m, s[0]) then Reject(s[1..], m)
    else [s[0]] + Reject(s[1..], m)
  }

  /** Every element goes to exactly one side: selected and rejected together are the input. */
  lemma {:induction false} SelectRejectPartition<T>(s: seq<T>, m: Matcher<T>)
    ensures multiset(Select(s, m)) + multiset(Reject(s, m)) == multiset(s)
    ensures |Select(s, m)| + |Reject(s, m)| == |s|
  {
    if |s| > 0 {
      SelectRejectPartition(s[1..], m);
      assert s == [s[0]] + s[1..];
      assert multiset(s) == multiset([s[0]]) + multiset(s[1..]);
      if Matches(m, s[0]) {
        assert multiset(Select(s, m)) == multiset([s[0]]) + multiset(Select(s[1..], m));
      } else {
        assert multiset(Reject(s, m)) == multiset([s[0]]) + multiset(Reject(s[1..], m));
      }
    }
  }

  /** With no match, nothing is selected and everything is kept. */
  lemma {:induction false} NoMatchSelectsNothing<T>(s: seq<T>, m: Matcher<T>)
    requires IndexOfFirst(s, m).None?
    ensures Select(s, m) == [] && Reject(s, m) == s
  {
    if |s| > 0 {
      NoMatchSelectsNothing(s[1..], m);
      assert s == [s[0]] + s[1..];
    }
  }

  /** The first selected element is the one `find` returns. */
  lemma {:induction false} SelectStartsAtFirstMatch<T>(s: seq<T>, m: Matcher<T>)
    requires IndexOfFirst(s, m).Some?
    ensures |Select(s, m)| > 0 && Select(s, m)[0] == s[IndexOfFirst(s, m).value]
  {
    if !Matches(m, s[0]) {
      SelectStartsAtFirstMatch(s[1..], m);
    }
  }
}
