/**
 * The recursive Fibonacci action and its top-level caller. The action checks
 * the sizes of its argument and result buffers, reporting errors through the
 * status of its task context, then computes Fib(n) by starting one sub-task for
 * n - 1, computing n - 2 inline in the same task context, waiting for the
 * sub-task without a timeout and summing the two results.
 *
 * Starting a sub-task and then waiting for it without a timeout is modelled as
 * running that sub-task to completion, in a fresh task context, at the point
 * where it is started; nothing the parent does in between depends on it.
 */
module FibonacciTask {

  /** `sizeof(int)`: the program's int is 32 bits wide. */
  const IntSize: nat := 4

  /** The largest int. */
  const IntMax: int := 0x7FFF_FFFF

  /** The statuses the action can leave in its task context. */
  datatype Status = Success | ErrArgSize | ErrResultSize

  /** The result buffer handed to the action: a null pointer, or a buffer of the given size. */
  datatype ResultBuffer = Null | Buffer(size: nat)

  /** What the action does with its result buffer. */
  datatype Written =
    | Wrote(value: int)  // the result was stored into the buffer
    | NotWritten         // the action returned without storing anything
    | UndefinedWrite     // the action stored through an uninitialised pointer

  function Fib(n: nat): nat
  {
    if n < 2 then n else Fib(n - 1) + Fib(n - 2)
  }

  /** The value the action computes for argument n: n itself below 2, even when negative. */
  function Expected(n: int): int
  {
    if n < 2 then n else Fib(n)
  }

  /**
   * The action entry. `context` is the status of the task context on entry and
   * `context'` on return; `result` says what was stored into the result buffer,
   * and `started` lists the arguments of the sub-tasks this activation starts
   * (including those started by its inline recursive call, which shares the
   * task context), in the order they are started.
   */
  method FibonacciAction(arg: int, argSize: nat, resultBuffer: ResultBuffer, context: Status)
    returns (context': Status, result: Written, started: seq<int>)
    // unless the action returns early on a wrongly sized result buffer, its result fits the program's int
    requires (resultBuffer.Buffer? && resultBuffer.size != IntSize) || Expected(arg) <= IntMax
    ensures context' == if resultBuffer.Null? || resultBuffer.size != IntSize then ErrResultSize
                        else if argSize != IntSize then ErrArgSize
                        else context
    ensures resultBuffer.Buffer? && resultBuffer.size != IntSize ==> result == NotWritten && started == []
    ensures resultBuffer.Null? ==> result == UndefinedWrite
    ensures resultBuffer == Buffer(IntSize) ==> result == Wrote(Expected(arg))
    ensures !(resultBuffer.Buffer? && resultBuffer.size != IntSize) ==>
              |started| == (if arg < 2 then 0 else arg / 2) &&
              forall j :: 0 <= j < |started| ==> started[j] == arg - 1 - 2 * j
    decreases if arg < 0 then 0 else arg
  {
    context' := context;
    started := [];
    if argSize != IntSize {
      context' := ErrArgSize;
    }
    var n := arg;
    if resultBuffer.Null? {
      context' := ErrResultSize;
    } else if resultBuffer.size != IntSize {
      context' := ErrResultSize;
      return context', NotWritten, started;
    }
    var value: int;
    if n < 2 {
      value := n;
    } else {
      // the sub-task for n - 1, run to completion in its own task context
      var a := n - 1;
      FibMonotonic(n - 2, n - 1);
      FibMonotonic(n - 1, n);
      started := started + [a];
      var _, sub, _ := FibonacciAction(a, IntSize, Buffer(IntSize), Success);
      var x := sub.value;
      // n - 2 computed inline, in this task context
      var b := n - 2;
      var inline, inlineStarted;
      context', inline, inlineStarted := FibonacciAction(b, IntSize, Buffer(IntSize), context');
      started := started + inlineStarted;
      var y := inline.value;
      value := x + y;
      assert value == Expected(n);
    }
    result := if resultBuffer.Null? then UndefinedWrite else Wrote(value);
  }

  /** Starts the action on n with valid buffers, waits for it without a timeout and returns its result. */
  method Fibonacci(n: int) returns (r: int)
    requires Expected(n) <= IntMax
    ensures r == Expected(n)
  {
    var _, result, _ := FibonacciAction(n, IntSize, Buffer(IntSize), Success);
    r := result.value;
  }

  /** The program's own run: Fibonacci(3). */
  method RunProgram() returns (r: int)
    ensures r == 2
  {
    r := Fibonacci(3);
  }

  /** The Fibonacci numbers computed by iterating over consecutive pairs, an independent definition. */
  function FibIterate(n: nat, a: nat, b: nat): nat
    decreases n
  {
    if n == 0 then a else FibIterate(n - 1, b, a + b)
  }

  lemma {:induction false} FibIterateShift(n: nat, k: nat)
    ensures FibIterate(n, Fib(k), Fib(k + 1)) == Fib(n + k)
  {
    if n > 0 {
      FibIterateShift(n - 1, k + 1);
    }
  }

  /** The recursive definition agrees with the iterative one. */
  lemma FibIterateCorrect(n: nat)
    ensures Fib(n) == FibIterate(n, 0, 1)
  {
    FibIterateShift(n, 0);
  }

  lemma {:induction false} FibMonotonic(i: nat, j: nat)
    requires i <= j
    ensures Fib(i) <= Fib(j)
    decreases j - i
  {
    if i < j {
      FibMonotonic(i + 1, j);
      if i + 1 >= 2 {
        assert Fib(i + 1) == Fib(i) + Fib(i - 1);
      }
    }
  }
}
