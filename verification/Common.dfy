/** Shared vocabulary of the monitor model: optional values and results,
    observer identities, the events the detectors post to the primary
    context, and the integer arithmetic of the JVM's `Long` type. */
module Common {

  /** Kotlin's nullable values. Failure-compatible, so `:-` can be used. */
  datatype Option<+T> = None | Some(value: T) {
    predicate IsFailure() {
      None?
    }

    function PropagateFailure<U>(): Option<U>
      requires None?
    {
      None
    }

    function Extract(): T
      requires Some?
    {
      value
    }
  }

  /** A call that either returns normally or throws. */
  datatype Result<+T, +E> = Success(value: T) | Failure(error: E)

  /** An installed `MonitorCallback`, identified by an opaque number: the
      model needs to know which observer receives events, not what it does. */
  datatype Observer = Observer(id: nat)

  /** An observer notification, as posted to the primary context. */
  datatype Event =
    | FrameStuck(durationMs: int, stackTrace: string)
    | AnrDetected(delayMs: int, stackTrace: string, logLine: string)
    | LowFrameRate(fps: int)

  function Abs(x: int): nat {
    if x < 0 then -x else x
  }

  /** Division rounding toward zero, as `/` on Kotlin `Int` and `Long`.
      Dafny's own `/` is Euclidean and differs when the dividend is negative.
      The remainder is smaller than the divisor and carries the dividend's sign. */
  function TruncDiv(a: int, b: int): (q: int)
    requires b != 0
    ensures Abs(a - q * b) < Abs(b)
    ensures a - q * b == 0 || (a - q * b < 0 <==> a < 0)
  {
    if a >= 0 then
      if b > 0 then a / b else -(a / -b)
    else
      if b > 0 then -((-a) / b) else (-a) / (-b)
  }

  /** `coerceIn(lo, hi)`. */
  function Clamp(x: int, lo: int, hi: int): (r: int)
    requires lo <= hi
    ensures lo <= r <= hi
    ensures lo <= x <= hi ==> r == x
    ensures x < lo ==> r == lo
    ensures x > hi ==> r == hi
  {
    if x < lo then lo else if x > hi then hi else x
  }

  /** The sum of a list of numbers, as Kotlin's `Iterable<Long>.sum()`. */
  function Sum(s: seq<int>): int
  {
    if |s| == 0 then 0 else Sum(s[..|s| - 1]) + s[|s| - 1]
  }

  /** The last `n` elements of `s`, or all of them when there are fewer. */
  function LastN(s: seq<int>, n: nat): (r: seq<int>)
    ensures |r| == if |s| <= n then |s| else n
    ensures r == s[|s| - |r|..]
  {
    if |s| <= n then s else s[|s| - n..]
  }

  lemma {:induction false} SumOfConstant(n: nat, v: int)
    ensures Sum(seq(n, _ => v)) == n * v
  {
    if n > 0 {
      var s := seq(n, _ => v);
      assert s[..n - 1] == seq(n - 1, _ => v);
      SumOfConstant(n - 1, v);
    }
  }
}
