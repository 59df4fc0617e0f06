/** Types and small sequence facts shared by every component. */
module Basics {

  datatype Option<+T> = None | Some(value: T)

  datatype Result<+T, +E> = Ok(value: T) | Err(error: E)

  /** Unix seconds as the protocol carries them: a signed 64-bit integer. */
  const I64_MAX: int := 0x7FFF_FFFF_FFFF_FFFF
  const I64_MIN: int := -0x8000_0000_0000_0000

  type Timestamp = t: int | I64_MIN <= t <= I64_MAX

  /** `t` plus a whole number of seconds, stopping at the largest timestamp. */
  function SaturatingAdd(t: Timestamp, seconds: nat): (r: Timestamp)
    ensures r == t + seconds || (r == I64_MAX && t + seconds > I64_MAX)
    ensures t <= r
  {
    if t + seconds > I64_MAX then I64_MAX else t + seconds
  }

  /** Strictly before `reference`: an expiry is its last valid second. */
  predicate InThePast(t: Timestamp, reference: Timestamp) {
    t < reference
  }

  /** A condition and the error that reports it unmet; an operation lists its rules in the order it looks at them. */
  datatype Rule<+E> = Rule(holds: bool, error: E)

  ghost predicate AllHold<E>(checks: seq<Rule<E>>) {
    forall i :: 0 <= i < |checks| ==> checks[i].holds
  }

  ghost predicate FailsFirst<E>(checks: seq<Rule<E>>, e: E) {
    exists i :: 0 <= i < |checks| && !checks[i].holds && checks[i].error == e
      && forall j :: 0 <= j < i ==> checks[j].holds
  }

  /** All rules are met, or the first one not met is reported. */
  ghost predicate Reports<T, E>(checks: seq<Rule<E>>, r: Result<T, E>) {
    if AllHold(checks) then r.Ok? else r.Err? && FailsFirst(checks, r.error)
  }

  lemma {:induction false} FirstFault<E>(checks: seq<Rule<E>>, i: nat)
    requires i < |checks| && !checks[i].holds && forall j :: 0 <= j < i ==> checks[j].holds
    ensures !AllHold(checks) && FailsFirst(checks, checks[i].error)
  {
  }

  lemma {:induction false} NoFault<E>(checks: seq<Rule<E>>)
    requires forall i :: 0 <= i < |checks| ==> checks[i].holds
    ensures AllHold(checks)
  {
  }

  /** Later checks count only once all earlier ones hold. */
  lemma {:induction false} ChecksInTurn<E>(first: seq<Rule<E>>, rest: seq<Rule<E>>)
    ensures AllHold(first + rest) <==> AllHold(first) && AllHold(rest)
    ensures forall e :: FailsFirst(first + rest, e) <==>
              FailsFirst(first, e) || (AllHold(first) && FailsFirst(rest, e))
  {
    var all := first + rest;
    assert forall i :: 0 <= i < |first| ==> all[i] == first[i];
    assert forall i :: 0 <= i < |rest| ==> all[|first| + i] == rest[i];
    forall e
      ensures FailsFirst(all, e) <==> FailsFirst(first, e) || (AllHold(first) && FailsFirst(rest, e))
    {
      if AllHold(first) && FailsFirst(rest, e) {
        var i :| 0 <= i < |rest| && !rest[i].holds && rest[i].error == e && forall j :: 0 <= j < i ==> rest[j].holds;
        assert !all[|first| + i].holds;
      }
      if FailsFirst(all, e) && AllHold(first) {
        var i :| 0 <= i < |all| && !all[i].holds && all[i].error == e && forall j :: 0 <= j < i ==> all[j].holds;
        var k := i - |first|;
        assert rest[k] == all[i] && forall j :: 0 <= j < k ==> all[|first| + j] == rest[j];
      }
    }
  }

  type byte = b: int | 0 <= b < 256

  ghost predicate Distinct<T>(s: seq<T>) {
    forall i, j :: 0 <= i < j < |s| ==> s[i] != s[j]
  }

  lemma {:induction false} DistinctSnoc<T>(s: seq<T>, x: T)
    requires Distinct(s) && x !in s
    ensures Distinct(s + [x])
  {
  }

  /** The last `n` elements, or all of them when there are fewer. */
  function LastN<T>(s: seq<T>, n: nat): (r: seq<T>)
    ensures |r| <= n && |r| <= |s|
  {
    if |s| <= n then s else s[|s| - n..]
  }

  lemma {:induction false} SplitLastN<T>(s: seq<T>, n: nat)
    requires n < |s|
    ensures s == s[..|s| - n] + LastN(s, n) && |LastN(s, n)| == n
  {
  }

  lemma {:induction false} SplitAround<T>(s: seq<T>, p: nat)
    requires p < |s|
    ensures s == s[..p] + ([s[p]] + s[p + 1..])
  {
  }

  lemma {:induction false} Regroup<T>(a: seq<T>, b: seq<T>, c: seq<T>)
    ensures (a + b) + c == a + (b + c)
  {
  }

  lemma {:induction false} SubsetIsNoLarger<T>(a: set<T>, b: set<T>)
    requires a <= b
    ensures |a| <= |b|
  {
    if a != {} {
      var x :| x in a;
      SubsetIsNoLarger(a - {x}, b - {x});
    }
  }
}
