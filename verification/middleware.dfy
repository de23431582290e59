/** The middleware chain. A `Next` is a cursor over an immutable list of
    middleware plus a terminal endpoint; running it hands the input to the
    middleware under the cursor together with a `Next` advanced by one, or
    to the endpoint when the list is exhausted.

    A middleware is modelled by what it does with its input: it answers
    directly (short-circuit), or it calls the rest of the chain once, on an
    input of its choosing, and then post-processes the output. Because `Next`
    is consumed by value, calling it twice is impossible, and the model has
    no way to express it. The same chain serves both generations: the
    context-only one (input = context) and the state-passing one (input =
    request and state, handed on in that order).
 */
module Middleware {

  datatype Action<In, !Out> = Respond(out: Out) | CallNext(input: In, post: Out -> Out)

  /** A middleware: a function from its input to what it does. Any function
      of this shape is a middleware (the blanket closure impls). */
  type Mw<!In, !Out> = In -> Action<In, Out>

  /** Observable events of one run: middleware `i` is entered or returns, or
      the endpoint is called. */
  datatype Event = Enter(i: nat) | Exit(i: nat) | EndpointCalled

  datatype Next<!In, !Out> = Next(mws: seq<Mw<In, Out>>, cursor: nat, endpoint: In -> Out)

  /** `Next::new`: a cursor at the start of the list. */
  function NewNext<In, Out>(mws: seq<Mw<In, Out>>, endpoint: In -> Out): (n: Next<In, Out>)
    ensures n.mws == mws && n.cursor == 0 && n.endpoint == endpoint
  {
    Next(mws, 0, endpoint)
  }

  /** `Next::run`, returning the output and the trace of events. */
  function Run<In, Out>(n: Next<In, Out>, input: In): (r: (Out, seq<Event>))
    decreases |n.mws| - n.cursor
  {
    if n.cursor >= |n.mws| then (n.endpoint(input), [EndpointCalled])
    else
      match n.mws[n.cursor](input)
      case Respond(o) => (o, [Enter(n.cursor), Exit(n.cursor)])
      case CallNext(input1, post) =>
        var (o, t) := Run(Next(n.mws, n.cursor + 1, n.endpoint), input1);
        (post(o), [Enter(n.cursor)] + t + [Exit(n.cursor)])
  }

  /** Middleware `c`, `c + 1`, ..., `c + d - 1` entered in that order. */
  function Enters(c: nat, d: nat): (t: seq<Event>)
    ensures |t| == d && forall k :: 0 <= k < d ==> t[k] == Enter(c + k)
    decreases d
  {
    if d == 0 then [] else [Enter(c)] + Enters(c + 1, d - 1)
  }

  /** The same middleware returning, innermost first. */
  function Exits(c: nat, d: nat): (t: seq<Event>)
    ensures |t| == d && forall k :: 0 <= k < d ==> t[k] == Exit(c + d - 1 - k)
    decreases d
  {
    if d == 0 then [] else Exits(c + 1, d - 1) + [Exit(c)]
  }

  /** Every middleware from the cursor on calls `next`, along the inputs the
      chain actually passes down. */
  predicate AllCallNext<In, Out>(n: Next<In, Out>, input: In)
    decreases |n.mws| - n.cursor
  {
    n.cursor >= |n.mws| ||
    match n.mws[n.cursor](input)
    case Respond(_) => false
    case CallNext(input1, _) => AllCallNext(Next(n.mws, n.cursor + 1, n.endpoint), input1)
  }

  /** How many middleware a run from the cursor enters. */
  function Depth<In, Out>(n: Next<In, Out>, input: In): nat
    decreases |n.mws| - n.cursor
  {
    if n.cursor >= |n.mws| then 0
    else
      match n.mws[n.cursor](input)
      case Respond(_) => 1
      case CallNext(input1, _) => 1 + Depth(Next(n.mws, n.cursor + 1, n.endpoint), input1)
  }

  /** The shape of every run: middleware are entered in list order from the
      cursor and return in reverse order; the endpoint is called at most
      once, exactly when every entered middleware called `next`, and then the
      whole rest of the list was entered. */
  lemma {:induction false} RunShape<In, Out>(n: Next<In, Out>, input: In)
    requires n.cursor <= |n.mws|
    ensures var d := Depth(n, input);
      Run(n, input).1 == Enters(n.cursor, d) + (if AllCallNext(n, input) then [EndpointCalled] else []) + Exits(n.cursor, d)
    ensures AllCallNext(n, input) ==> n.cursor + Depth(n, input) == |n.mws|
    ensures !AllCallNext(n, input) ==> Depth(n, input) >= 1 && n.cursor + Depth(n, input) <= |n.mws|
    decreases |n.mws| - n.cursor
  {
    var c := n.cursor;
    if c == |n.mws| {
      assert Enters(c, 0) == [] && Exits(c, 0) == [];
    } else {
      match n.mws[c](input)
      case Respond(o) =>
        assert Enters(c, 1) == [Enter(c)] && Exits(c, 1) == [Exit(c)];
      case CallNext(input1, post) =>
        var n1 := Next(n.mws, c + 1, n.endpoint);
        RunShape(n1, input1);
        var d1 := Depth(n1, input1);
        var mid := if AllCallNext(n1, input1) then [EndpointCalled] else [];
        EntersExitsStep(c, d1);
        Wrap(Enter(c), Enters(c + 1, d1), mid, Exits(c + 1, d1), Exit(c));
        assert Run(n, input).1 == [Enter(c)] + (Enters(c + 1, d1) + mid + Exits(c + 1, d1)) + [Exit(c)];
    }
  }

  /** One more level of depth adds the outer middleware on both sides. */
  lemma EntersExitsStep(c: nat, d: nat)
    ensures Enters(c, d + 1) == [Enter(c)] + Enters(c + 1, d)
    ensures Exits(c, d + 1) == Exits(c + 1, d) + [Exit(c)]
  {
    assert Enters(c, d + 1) == [Enter(c)] + Enters(c + 1, d);
    assert Exits(c, d + 1) == Exits(c + 1, d) + [Exit(c)];
  }

  lemma Wrap<T>(x: T, a: seq<T>, m: seq<T>, b: seq<T>, y: T)
    ensures [x] + (a + m + b) + [y] == ([x] + a) + m + (b + [y])
  {
  }

  /** The number of occurrences of `e` in a trace. */
  function Count(t: seq<Event>, e: Event): (r: nat)
    ensures r <= |t|
  {
    if |t| == 0 then 0 else (if t[0] == e then 1 else 0) + Count(t[1..], e)
  }

  lemma CountAppend(a: seq<Event>, b: seq<Event>, e: Event)
    ensures Count(a + b, e) == Count(a, e) + Count(b, e)
  {
    if |a| > 0 {
      assert (a + b)[1..] == a[1..] + b;
      CountAppend(a[1..], b, e);
    } else {
      assert a + b == b;
    }
  }

  lemma {:induction false} CountEnters(c: nat, d: nat, e: Event)
    ensures Count(Enters(c, d), e) == (if e.Enter? && c <= e.i < c + d then 1 else 0)
    decreases d
  {
    if d > 0 {
      assert Enters(c, d) == [Enter(c)] + Enters(c + 1, d - 1);
      CountEnters(c + 1, d - 1, e);
    }
  }

  lemma {:induction false} CountExits(c: nat, d: nat, e: Event)
    ensures Count(Exits(c, d), e) == (if e.Exit? && c <= e.i < c + d then 1 else 0)
    decreases d
  {
    if d > 0 {
      assert Exits(c, d) == Exits(c + 1, d - 1) + [Exit(c)];
      CountAppend(Exits(c + 1, d - 1), [Exit(c)], e);
      CountExits(c + 1, d - 1, e);
    }
  }

  /** How often each event occurs in a run: middleware `c .. c + d - 1` are
      entered once and exited once, and the endpoint is called once exactly
      when every entered middleware called `next`. */
  lemma RunCounts<In, Out>(n: Next<In, Out>, input: In, e: Event)
    requires n.cursor <= |n.mws|
    ensures var c, d := n.cursor, Depth(n, input);
      Count(Run(n, input).1, e) ==
        (if e.Enter? && c <= e.i < c + d then 1 else 0)
        + (if e == EndpointCalled && AllCallNext(n, input) then 1 else 0)
        + (if e.Exit? && c <= e.i < c + d then 1 else 0)
  {
    RunShape(n, input);
    var d := Depth(n, input);
    var mid: seq<Event> := if AllCallNext(n, input) then [EndpointCalled] else [];
    CountAppend(Enters(n.cursor, d), mid, e);
    CountAppend(Enters(n.cursor, d) + mid, Exits(n.cursor, d), e);
    CountEnters(n.cursor, d, e);
    CountExits(n.cursor, d, e);
  }

  /** Single use of the endpoint: one run calls it at most once, and exactly
      when every entered middleware called `next`. */
  lemma RunOnce<In, Out>(n: Next<In, Out>, input: In)
    requires n.cursor <= |n.mws|
    ensures Count(Run(n, input).1, EndpointCalled) == (if AllCallNext(n, input) then 1 else 0)
  {
    RunCounts(n, input, EndpointCalled);
  }

  /** Single use of each middleware: one run enters it at most once. */
  lemma RunEntersOnce<In, Out>(n: Next<In, Out>, input: In, i: nat)
    requires n.cursor <= |n.mws|
    ensures Count(Run(n, input).1, Enter(i)) <= 1
  {
    RunCounts(n, input, Enter(i));
  }

  /** Every middleware entered returns: it exits as often as it is entered. */
  lemma RunBalanced<In, Out>(n: Next<In, Out>, input: In, i: nat)
    requires n.cursor <= |n.mws|
    ensures Count(Run(n, input).1, Enter(i)) == Count(Run(n, input).1, Exit(i))
  {
    RunCounts(n, input, Enter(i));
    RunCounts(n, input, Exit(i));
  }

  /** A middleware that answers directly short-circuits the chain: its answer
      is the result, and nothing after it runs. */
  lemma ShortCircuit<In, Out>(n: Next<In, Out>, input: In)
    requires n.cursor < |n.mws| && n.mws[n.cursor](input).Respond?
    ensures Run(n, input) == (n.mws[n.cursor](input).out, [Enter(n.cursor), Exit(n.cursor)])
  {
  }

  /** With no middleware left, `run` is the endpoint applied to the same input. */
  lemma EmptyChain<In, Out>(endpoint: In -> Out, input: In)
    ensures Run(NewNext([], endpoint), input) == (endpoint(input), [EndpointCalled])
  {
  }

  /** Running a list split in two is running the first part with, as its
      endpoint, a run of the second part. */
  lemma {:induction false} RunSplit<In, Out>(a: seq<Mw<In, Out>>, b: seq<Mw<In, Out>>, endpoint: In -> Out,
                                             c: nat, input: In)
    requires c <= |a|
    ensures Run(Next(a + b, c, endpoint), input).0 ==
            Run(Next(a, c, x => Run(Next(b, 0, endpoint), x).0), input).0
    decreases |a| - c
  {
    if c == |a| {
      RunShift(a, b, endpoint, 0, input);
    } else {
      assert (a + b)[c] == a[c];
      match a[c](input)
      case Respond(_) =>
      case CallNext(input1, post) =>
        RunSplit(a, b, endpoint, c + 1, input1);
    }
  }

  /** Running `b` behind a prefix `a` is running `b` from its own start. */
  lemma {:induction false} RunShift<In, Out>(a: seq<Mw<In, Out>>, b: seq<Mw<In, Out>>, endpoint: In -> Out,
                                             k: nat, input: In)
    requires k <= |b|
    ensures Run(Next(a + b, |a| + k, endpoint), input).0 == Run(Next(b, k, endpoint), input).0
    decreases |b| - k
  {
    if k < |b| {
      assert (a + b)[|a| + k] == b[k];
      match b[k](input)
      case Respond(_) =>
      case CallNext(input1, post) =>
        RunShift(a, b, endpoint, k + 1, input1);
    }
  }
}
