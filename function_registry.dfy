/** The spreadsheet functions of lib/dependency-graph/function-registry.ts:
    the handler table looked up by upper-cased name, `flatten`, and the
    aggregates SUM, AVG, MIN, MAX and COUNT over the flattened argument
    values, with IF's notion of truth. Evaluating the arguments (and a
    range argument's cells) is the evaluator's part, in module Evaluation. */
module FunctionRegistry {
  import opened Wrappers
  import opened Text
  import opened Coercion

  /** The entries of `handlers`. */
  datatype Handler = SumH | AvgH | MinH | MaxH | CountH | IfH

  function HandlerName(h: Handler): string
  {
    match h
    case SumH => "SUM" case AvgH => "AVG" case MinH => "MIN"
    case MaxH => "MAX" case CountH => "COUNT" case IfH => "IF"
  }

  /** `handlers[name.toUpperCase()]` (lib/dependency-graph/function-registry.ts:109):
      a handler whose name is the upper-cased name, and none when no
      handler has that name. */
  function LookupHandler(name: string): (h: Option<Handler>)
    ensures h.Some? ==> HandlerName(h.value) == ToUpper(name)
    ensures h.None? ==> forall g: Handler :: HandlerName(g) != ToUpper(name)
  {
    var u := ToUpper(name);
    if u == "SUM" then Some(SumH)
    else if u == "AVG" then Some(AvgH)
    else if u == "MIN" then Some(MinH)
    else if u == "MAX" then Some(MaxH)
    else if u == "COUNT" then Some(CountH)
    else if u == "IF" then Some(IfH)
    else None
  }

  lemma UpperIdempotent(s: string)
    ensures ToUpper(ToUpper(s)) == ToUpper(s)
  {
    forall i | 0 <= i < |s|
      ensures UpperChar(UpperChar(s[i])) == UpperChar(s[i])
    {
    }
  }

  /** Function names are case-insensitive: a name and its upper-cased form
      find the same handler. */
  lemma LookupIgnoresCase(name: string)
    ensures LookupHandler(ToUpper(name)) == LookupHandler(name)
  {
    UpperIdempotent(name);
  }

  // ---------------------------------------------------------------------------
  // flatten

  /** An evaluated argument: one value, or the values a range expanded to. */
  datatype Arg = One(v: Value) | Many(vs: seq<Value>)

  function ArgValues(a: Arg): seq<Value>
  {
    match a
    case One(v) => [v]
    case Many(vs) => vs
  }

  /** The arguments' values, ranges spliced in place, in order. */
  function Flattened(args: seq<Arg>): seq<Value>
  {
    if args == [] then [] else Flattened(args[..|args| - 1]) + ArgValues(args[|args| - 1])
  }

  /** Flattening distributes over concatenation of argument lists. */
  lemma {:induction false} FlattenedAppend(a: seq<Arg>, b: seq<Arg>)
    ensures Flattened(a + b) == Flattened(a) + Flattened(b)
    decreases |b|
  {
    if b != [] {
      assert (a + b)[..|a + b| - 1] == a + b[..|b| - 1];
      FlattenedAppend(a, b[..|b| - 1]);
    } else {
      assert a + b == a;
    }
  }

  /** flatten (lib/dependency-graph/function-registry.ts:11-15). */
  method Flatten(args: seq<Arg>) returns (out: seq<Value>)
    ensures out == Flattened(args)
  {
    out := [];
    for i := 0 to |args|
      invariant out == Flattened(args[..i])
    {
      assert args[..i + 1][..i] == args[..i];
      match args[i]
      case One(v) => out := out + [v];
      case Many(vs) => out := out + vs;
    }
    assert args[..|args|] == args;
  }

  // ---------------------------------------------------------------------------
  // The aggregates

  /** The values whose runtime type is number, in order. */
  function Numbers(vals: seq<Value>): (xs: seq<real>)
    ensures |xs| <= |vals|
  {
    if vals == [] then []
    else
      var v := vals[|vals| - 1];
      Numbers(vals[..|vals| - 1]) + (if v.Num? then [v.n] else [])
  }

  /** The numbers among the values are exactly the Num values. */
  lemma {:induction false} NumbersAreNumValues(vals: seq<Value>)
    ensures forall x :: x in Numbers(vals) <==> Num(x) in vals
  {
    if vals != [] {
      var init := vals[..|vals| - 1];
      NumbersAreNumValues(init);
      assert vals == init + [vals[|vals| - 1]];
    }
  }

  /** Sum of a sequence of numbers. */
  function Total(xs: seq<real>): real
  {
    if xs == [] then 0.0 else Total(xs[..|xs| - 1]) + xs[|xs| - 1]
  }

  lemma TotalSnoc(xs: seq<real>, x: real)
    ensures Total(xs + [x]) == Total(xs) + x
  {
    assert (xs + [x])[..|xs|] == xs;
  }

  lemma {:induction false} TotalAppend(a: seq<real>, b: seq<real>)
    ensures Total(a + b) == Total(a) + Total(b)
    decreases |b|
  {
    if b != [] {
      assert (a + b)[..|a + b| - 1] == a + b[..|b| - 1];
      TotalAppend(a, b[..|b| - 1]);
    } else {
      assert a + b == a;
    }
  }

  lemma {:induction false} NumbersAppend(a: seq<Value>, b: seq<Value>)
    ensures Numbers(a + b) == Numbers(a) + Numbers(b)
    decreases |b|
  {
    if b != [] {
      assert (a + b)[..|a + b| - 1] == a + b[..|b| - 1];
      NumbersAppend(a, b[..|b| - 1]);
    } else {
      assert a + b == a;
    }
  }

  /** SUM over several arguments is the sum of their SUMs: numbers add up
      and everything else contributes nothing. */
  lemma SumSplits(a: seq<Value>, b: seq<Value>)
    ensures Total(Numbers(a + b)) == Total(Numbers(a)) + Total(Numbers(b))
  {
    NumbersAppend(a, b);
    TotalAppend(Numbers(a), Numbers(b));
  }

  /** Values with no number among them (strings such as "5", booleans,
      null) sum to 0. */
  lemma {:induction false} SumWithoutNumbers(vals: seq<Value>)
    requires forall k :: 0 <= k < |vals| ==> !vals[k].Num?
    ensures Total(Numbers(vals)) == 0.0
  {
    if vals != [] {
      SumWithoutNumbers(vals[..|vals| - 1]);
      assert Numbers(vals) == Numbers(vals[..|vals| - 1]) + [];
      assert Numbers(vals[..|vals| - 1]) + [] == Numbers(vals[..|vals| - 1]);
    }
  }

  /** One more value extends the numbers by it when it is a number. */
  lemma NumbersStep(vals: seq<Value>, i: nat)
    requires i < |vals|
    ensures Numbers(vals[..i + 1]) == Numbers(vals[..i]) + (if vals[i].Num? then [vals[i].n] else [])
  {
    assert vals[..i + 1][..i] == vals[..i];
  }

  /** SUM (lib/dependency-graph/function-registry.ts:24-26): adds the values
      whose type is number. */
  method Sum(vals: seq<Value>) returns (sum: real)
    ensures sum == Total(Numbers(vals))
  {
    sum := 0.0;
    for i := 0 to |vals|
      invariant sum == Total(Numbers(vals[..i]))
    {
      NumbersStep(vals, i);
      if vals[i].Num? {
        TotalSnoc(Numbers(vals[..i]), vals[i].n);
        sum := sum + vals[i].n;
      } else {
        assert Numbers(vals[..i + 1]) == Numbers(vals[..i]);
      }
    }
    assert vals[..|vals|] == vals;
  }

  /** A sum of n terms between lo and hi lies between n * lo and n * hi. */
  lemma {:induction false} TotalBetween(xs: seq<real>, lo: real, hi: real)
    requires forall k :: 0 <= k < |xs| ==> lo <= xs[k] <= hi
    ensures |xs| as real * lo <= Total(xs) <= |xs| as real * hi
  {
    if xs != [] {
      var init := xs[..|xs| - 1];
      var n := |init| as real;
      assert forall k :: 0 <= k < |init| ==> init[k] == xs[k];
      TotalBetween(init, lo, hi);
      assert Total(xs) == Total(init) + xs[|xs| - 1];
      assert |xs| as real == n + 1.0;
      OneMore(n, lo);
      OneMore(n, hi);
    }
  }

  lemma OneMore(n: real, x: real)
    ensures (n + 1.0) * x == n * x + x
  {
  }

  /** Multiplying by a positive number keeps the order. */
  lemma ScaledOrder(a: real, b: real, n: real)
    requires n > 0.0 && a * n <= b * n
    ensures a <= b
  {
  }

  /** A quotient multiplied back by its divisor is the dividend. */
  lemma QuotientTimes(t: real, n: real, q: real)
    requires n != 0.0 && q == t / n
    ensures q * n == t
  {
  }

  /** A quotient t / n of a t between n * lo and n * hi lies between lo and hi. */
  lemma QuotientBetween(t: real, n: real, lo: real, hi: real)
    requires n > 0.0 && n * lo <= t <= n * hi
    ensures lo <= t / n <= hi
  {
    var q := t / n;
    assert q * n == t;
    ScaledOrder(lo, q, n);
    ScaledOrder(q, hi, n);
  }

  /** The average of a non-empty sequence of numbers between lo and hi
      lies between lo and hi. */
  lemma AverageBetween(xs: seq<real>, lo: real, hi: real)
    requires xs != []
    requires forall k :: 0 <= k < |xs| ==> lo <= xs[k] <= hi
    ensures lo <= Total(xs) / |xs| as real <= hi
  {
    TotalBetween(xs, lo, hi);
    QuotientBetween(Total(xs), |xs| as real, lo, hi);
  }

  /** The mean of the numbers among the values, 0 when there are none. */
  function Mean(vals: seq<Value>): real
  {
    var xs := Numbers(vals);
    if |xs| == 0 then 0.0 else Total(xs) / |xs| as real
  }

  /** AVG lies between MIN and MAX. */
  lemma MeanBetween(vals: seq<Value>)
    requires Numbers(vals) != []
    ensures MinOf(vals) <= Mean(vals) <= MaxOf(vals)
  {
    var xs := Numbers(vals);
    AverageBetween(xs, Least(xs), Greatest(xs));
  }

  /** AVG is 0 without numbers, and otherwise the value that, taken once
      for every number, gives their sum. */
  lemma MeanTimesCount(vals: seq<Value>)
    ensures Numbers(vals) == [] ==> Mean(vals) == 0.0
    ensures Numbers(vals) != [] ==> Mean(vals) * |Numbers(vals)| as real == Total(Numbers(vals))
  {
    var xs := Numbers(vals);
    if xs != [] {
      var n := |xs| as real;
      assert Mean(vals) == Total(xs) / n;
      QuotientTimes(Total(xs), n, Mean(vals));
    }
  }

  /** AVG (lib/dependency-graph/function-registry.ts:34-41): the sum and the
      count of the number values, and their quotient when the count is not 0. */
  method Average(vals: seq<Value>) returns (avg: real)
    ensures avg == Mean(vals)
  {
    var sum, count := 0.0, 0;
    for i := 0 to |vals|
      invariant sum == Total(Numbers(vals[..i])) && count == |Numbers(vals[..i])|
    {
      NumbersStep(vals, i);
      if vals[i].Num? {
        TotalSnoc(Numbers(vals[..i]), vals[i].n);
        sum := sum + vals[i].n;
        count := count + 1;
      } else {
        assert Numbers(vals[..i + 1]) == Numbers(vals[..i]);
      }
    }
    assert vals[..|vals|] == vals;
    if count != 0 {
      avg := sum / count as real;
    } else {
      avg := 0.0;
    }
  }

  /** The smallest of a non-empty sequence of numbers. */
  function Least(xs: seq<real>): (m: real)
    requires xs != []
    ensures m in xs && forall k :: 0 <= k < |xs| ==> m <= xs[k]
  {
    if |xs| == 1 then xs[0]
    else
      var m := Least(xs[..|xs| - 1]);
      assert forall k :: 0 <= k < |xs| - 1 ==> xs[..|xs| - 1][k] == xs[k];
      if xs[|xs| - 1] < m then xs[|xs| - 1] else m
  }

  /** The largest of a non-empty sequence of numbers. */
  function Greatest(xs: seq<real>): (m: real)
    requires xs != []
    ensures m in xs && forall k :: 0 <= k < |xs| ==> xs[k] <= m
  {
    if |xs| == 1 then xs[0]
    else
      var m := Greatest(xs[..|xs| - 1]);
      assert forall k :: 0 <= k < |xs| - 1 ==> xs[..|xs| - 1][k] == xs[k];
      if xs[|xs| - 1] > m then xs[|xs| - 1] else m
  }

  /** MIN (lib/dependency-graph/function-registry.ts:43-50): the least
      number value, or 0 when there is none. */
  function MinOf(vals: seq<Value>): (m: real)
    ensures Numbers(vals) == [] ==> m == 0.0
    ensures Numbers(vals) != [] ==> Num(m) in vals && forall x :: Num(x) in vals ==> m <= x
  {
    NumbersAreNumValues(vals);
    var xs := Numbers(vals);
    if xs == [] then 0.0 else Least(xs)
  }

  /** MAX (lib/dependency-graph/function-registry.ts:51-58): the greatest
      number value, or 0 when there is none. */
  function MaxOf(vals: seq<Value>): (m: real)
    ensures Numbers(vals) == [] ==> m == 0.0
    ensures Numbers(vals) != [] ==> Num(m) in vals && forall x :: Num(x) in vals ==> x <= m
  {
    NumbersAreNumValues(vals);
    var xs := Numbers(vals);
    if xs == [] then 0.0 else Greatest(xs)
  }

  /** The number of values that are not null. */
  function NonNull(vals: seq<Value>): (c: nat)
    ensures c <= |vals|
  {
    if vals == [] then 0 else NonNull(vals[..|vals| - 1]) + (if vals[|vals| - 1] != Null then 1 else 0)
  }

  /** COUNT counts every value except null: it is the length exactly when
      there is no null. */
  lemma {:induction false} CountAllButNull(vals: seq<Value>)
    ensures NonNull(vals) == |vals| <==> Null !in vals
  {
    if vals != [] {
      var init := vals[..|vals| - 1];
      CountAllButNull(init);
      assert vals == init + [vals[|vals| - 1]];
    }
  }

  /** COUNT (lib/dependency-graph/function-registry.ts:65-67). */
  method Count(vals: seq<Value>) returns (count: nat)
    ensures count == NonNull(vals)
  {
    count := 0;
    for i := 0 to |vals|
      invariant count == NonNull(vals[..i])
    {
      assert vals[..i + 1][..i] == vals[..i];
      if vals[i] != Null {
        count := count + 1;
      }
    }
    assert vals[..|vals|] == vals;
  }

  /** `!!v`, IF's test (lib/dependency-graph/function-registry.ts:72): the
      falsy values are exactly null, 0, "" and false. */
  predicate Truthy(v: Value)
    ensures !Truthy(v) <==> v in {Null, Num(0.0), Str(""), Bool(false)}
  {
    match v
    case Null => false
    case Num(n) => n != 0.0
    case Str(s) => s != ""
    case Bool(b) => b
  }

  /** The value of an aggregate handler on the flattened argument values:
      always a number; AVG, MIN and MAX lie between the least and the
      greatest number among the values and are 0 without one; COUNT is at
      most the number of values. */
  function Aggregate(h: Handler, vals: seq<Value>): (v: Value)
    requires h != IfH
    ensures v.Num?
    ensures (h == AvgH || h == MinH || h == MaxH) && Numbers(vals) == [] ==> v == Num(0.0)
    ensures (h == AvgH || h == MinH || h == MaxH) && Numbers(vals) != [] ==> MinOf(vals) <= v.n <= MaxOf(vals)
    ensures h == CountH ==> v.n <= |vals| as real
  {
    match h
    case SumH => Num(Total(Numbers(vals)))
    case AvgH =>
      if Numbers(vals) == [] then Num(Mean(vals))
      else MeanBetween(vals); Num(Mean(vals))
    case MinH => Num(MinOf(vals))
    case MaxH => Num(MaxOf(vals))
    case CountH => Num(NonNull(vals) as real)
  }

  /** The aggregate handlers of lib/dependency-graph/function-registry.ts:11-80
      run on the flattened values: SUM, AVG and COUNT by their loops, MIN and
      MAX by Math.min and Math.max over the numbers. */
  method Apply(h: Handler, vals: seq<Value>) returns (v: Value)
    requires h != IfH
    ensures v == Aggregate(h, vals)
  {
    match h
    case SumH =>
      var s := Sum(vals);
      v := Num(s);
    case AvgH =>
      var a := Average(vals);
      v := Num(a);
    case MinH =>
      v := Num(MinOf(vals));
    case MaxH =>
      v := Num(MaxOf(vals));
    case CountH =>
      var n := Count(vals);
      v := Num(n as real);
  }
}
