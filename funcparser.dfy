/**
 * The generic parser-combinator framework of internal/funcparser/parser.go.
 *
 * A parser is a function from an input to (remaining input, output, result). Go
 * constrains the result type to `*ErrResult | *BoolResult` with a `Valid()` method and
 * manufactures a valid result with `valid[R]()`; here that constraint is passed as a
 * `Kind<R>` dictionary. Go's zero values (`var o O`) are passed explicitly as `zero`.
 */
module FuncParser {
  import opened Wrappers

  /** The output of parsers that only consume input. */
  datatype Empty = Empty

  /** `*BoolResult`: nil, or a record holding OK. */
  datatype BoolResult = NilBool | BoolResult(OK: bool)
  {
    predicate Valid() { NilBool? || OK }

    /** Conversion to a combined result: valid stays valid, anything else is a plain no-match. */
    function ToC<E>(): (r: CombineResult<E>)
      ensures r.Valid() == Valid() && r.Err == None
    {
      COK(Valid())
    }
  }

  /** `*ErrResult`: nil, or a record holding an optional error. */
  datatype ErrResult<+E> = NilErr | ErrResult(Err: Option<E>)
  {
    predicate Valid() { NilErr? || Err.None? }

    /** Conversion to a combined result: valid stays valid, an error stays that error. */
    function ToC(): (r: CombineResult<E>)
      ensures r.Valid() == Valid()
      ensures !Valid() ==> r.Err == Err
    {
      if Valid() then COK(true) else CErr(Err.value)
    }
  }

  /**
   * `*CombineResult`, which the shown parser.go does not define: it is reconstructed from
   * its uses. OK says whether the parser matched; Err, when present, is a fatal error.
   */
  datatype CombineResult<+E> = CombineResult(OK: bool, Err: Option<E>)
  {
    predicate Valid() { OK && Err.None? }

    /** Conversion to a fatal-error result, keeping only the error. */
    function ToE(): (r: ErrResult<E>)
      ensures r.Valid() <==> Err.None?
    {
      ErrResult(Err)
    }
  }

  /** OK builds a BoolResult that is valid exactly when ok holds. */
  function OK(ok: bool): (r: BoolResult)
    ensures r.Valid() == ok && r != NilBool
  {
    BoolResult(ok)
  }

  /** Err builds an ErrResult that is valid exactly when there is no error. */
  function Err<E>(err: Option<E>): (r: ErrResult<E>)
    ensures r.Valid() <==> err.None?
    ensures r != NilErr
  {
    ErrResult(err)
  }

  /** COK(b): a combined result that matched iff b, with no error. */
  function COK<E>(ok: bool): (r: CombineResult<E>)
    ensures r.Valid() == ok && r.Err == None
  {
    CombineResult(ok, None)
  }

  /** CErr(e): a combined result carrying the fatal error e. */
  function CErr<E>(e: E): (r: CombineResult<E>)
    ensures !r.Valid() && r.Err == Some(e)
  {
    CombineResult(false, Some(e))
  }

  /** The Result constraint: how to test a result, and the value `valid[R]()` returns. */
  datatype Kind<!R> = Kind(valid: R -> bool, validResult: R)
  {
    ghost predicate Sound() { valid(validResult) }
  }

  function BoolKind(): (k: Kind<BoolResult>)
    ensures k.Sound()
    ensures forall r: BoolResult :: k.valid(r) == r.Valid()
  {
    Kind((r: BoolResult) => r.Valid(), OK(true))
  }

  function ErrKind<E(!new)>(): (k: Kind<ErrResult<E>>)
    ensures k.Sound()
    ensures forall r: ErrResult<E> :: k.valid(r) == r.Valid()
  {
    Kind((r: ErrResult<E>) => r.Valid(), Err(None))
  }

  function CombineKind<E(!new)>(): (k: Kind<CombineResult<E>>)
    ensures k.Sound()
    ensures forall r: CombineResult<E> :: k.valid(r) == r.Valid()
  {
    Kind((r: CombineResult<E>) => r.Valid(), COK(true))
  }

  type Parser<!I, O, R> = I -> (I, O, R)

  /** LazyP: defers building the parser until it is applied. */
  function LazyP<I(!new), O, R>(f: () -> Parser<I, O, R>): (q: Parser<I, O, R>)
    ensures forall i :: q(i) == f()(i)
  {
    i => f()(i)
  }

  // ---------------------------------------------------------------- ChainP

  /** The loop of ChainP: `ii` is the original input, `ii2` the threaded one, `res` the outputs so far. */
  function ChainFrom<I, O, R>(k: Kind<R>, ps: seq<Parser<I, O, R>>, ii: I, ii2: I, res: seq<O>): (I, seq<O>, R)
    decreases |ps|
  {
    if ps == [] then (ii2, res, k.validResult)
    else
      var r := ps[0](ii2);
      if !k.valid(r.2) then (ii, [], r.2)
      else ChainFrom(k, ps[1..], ii, r.0, res + [r.1])
  }

  /** ChainP: run the parsers in sequence, rewinding to the original input on the first invalid result. */
  function ChainP<I, O, R>(k: Kind<R>, ps: seq<Parser<I, O, R>>): Parser<I, seq<O>, R>
  {
    ii => ChainFrom(k, ps, ii, ii, [])
  }

  /** What running every parser in turn, each on the input left by the previous one, yields. */
  ghost function Steps<I, O, R>(ps: seq<Parser<I, O, R>>, ii: I): (s: seq<(I, O, R)>)
    ensures |s| == |ps|
    decreases |ps|
  {
    if ps == [] then [] else var r := ps[0](ii); [r] + Steps(ps[1..], r.0)
  }

  ghost function Outputs<I, O, R>(s: seq<(I, O, R)>): (os: seq<O>)
    ensures |os| == |s|
    ensures forall j :: 0 <= j < |s| ==> os[j] == s[j].1
  {
    seq(|s|, j requires 0 <= j < |s| => s[j].1)
  }

  /** The input left after the steps: the last step's, or the original one when there are none. */
  ghost function Last<I, O, R>(ii: I, s: seq<(I, O, R)>): I
  {
    if s == [] then ii else s[|s| - 1].0
  }

  lemma {:induction false} ChainFromAllValid<I, O, R>(k: Kind<R>, ps: seq<Parser<I, O, R>>, ii: I, ii2: I, res: seq<O>)
    requires forall j :: 0 <= j < |ps| ==> k.valid(Steps(ps, ii2)[j].2)
    ensures ChainFrom(k, ps, ii, ii2, res) == (Last(ii2, Steps(ps, ii2)), res + Outputs(Steps(ps, ii2)), k.validResult)
    decreases |ps|
  {
    if ps != [] {
      var r := ps[0](ii2);
      var s := Steps(ps, ii2);
      assert s == [r] + Steps(ps[1..], r.0);
      assert k.valid(s[0].2);
      forall j | 0 <= j < |ps[1..]| ensures k.valid(Steps(ps[1..], r.0)[j].2) {
        assert Steps(ps[1..], r.0)[j] == s[j + 1];
      }
      ChainFromAllValid(k, ps[1..], ii, r.0, res + [r.1]);
      var t := Steps(ps[1..], r.0);
      assert Outputs(s) == [r.1] + Outputs(t);
      assert res + [r.1] + Outputs(t) == res + Outputs(s);
      assert Last(ii2, s) == Last(r.0, t);
    } else {
      assert res + Outputs(Steps(ps, ii2)) == res;
    }
  }

  /** When every parser succeeds, ChainP returns the last input, one output per parser in order, and a valid result. */
  lemma ChainAllValid<I, O, R>(k: Kind<R>, ps: seq<Parser<I, O, R>>, ii: I)
    requires forall j :: 0 <= j < |ps| ==> k.valid(Steps(ps, ii)[j].2)
    ensures ChainP(k, ps)(ii) == (Last(ii, Steps(ps, ii)), Outputs(Steps(ps, ii)), k.validResult)
  {
    ChainFromAllValid(k, ps, ii, ii, []);
    var os: seq<O> := Outputs(Steps(ps, ii));
    assert [] + os == os;
    assert ChainP(k, ps)(ii) == ChainFrom(k, ps, ii, ii, []);
  }

  lemma {:induction false} ChainFromFirstInvalid<I, O, R>(k: Kind<R>, ps: seq<Parser<I, O, R>>, ii: I, ii2: I, res: seq<O>, n: nat)
    requires n < |ps| && !k.valid(Steps(ps, ii2)[n].2)
    requires forall j :: 0 <= j < n ==> k.valid(Steps(ps, ii2)[j].2)
    ensures ChainFrom(k, ps, ii, ii2, res) == (ii, [], Steps(ps, ii2)[n].2)
    decreases |ps|
  {
    var r := ps[0](ii2);
    var s := Steps(ps, ii2);
    assert s == [r] + Steps(ps[1..], r.0);
    if n > 0 {
      assert k.valid(s[0].2);
      forall j | 0 <= j < n - 1 ensures k.valid(Steps(ps[1..], r.0)[j].2) {
        assert Steps(ps[1..], r.0)[j] == s[j + 1];
      }
      assert Steps(ps[1..], r.0)[n - 1] == s[n];
      ChainFromFirstInvalid(k, ps[1..], ii, r.0, res + [r.1], n - 1);
    }
  }

  /**
   * At the first parser whose result is invalid, ChainP returns the original input, no
   * outputs and that parser's result; what later parsers would do does not matter.
   */
  lemma ChainFirstInvalid<I, O, R>(k: Kind<R>, ps: seq<Parser<I, O, R>>, ii: I, n: nat)
    requires n < |ps| && !k.valid(Steps(ps, ii)[n].2)
    requires forall j :: 0 <= j < n ==> k.valid(Steps(ps, ii)[j].2)
    ensures ChainP(k, ps)(ii) == (ii, [], Steps(ps, ii)[n].2)
  {
    ChainFromFirstInvalid(k, ps, ii, ii, [], n);
  }

  /** A first parser that fails stops the chain at once. */
  lemma ChainHeadInvalid<I, O, R>(k: Kind<R>, ps: seq<Parser<I, O, R>>, ii: I)
    requires |ps| > 0 && !k.valid(ps[0](ii).2)
    ensures ChainP(k, ps)(ii) == (ii, [], ps[0](ii).2)
  {
    ChainFirstInvalid(k, ps, ii, 0);
  }

  /** ChainP over one parser, spelled out. */
  lemma ChainOne<I, O, R>(k: Kind<R>, p0: Parser<I, O, R>, ii: I)
    ensures ChainP(k, [p0])(ii) ==
      if !k.valid(p0(ii).2) then (ii, [], p0(ii).2) else (p0(ii).0, [p0(ii).1], k.validResult)
  {
    var r0 := p0(ii);
    assert [p0][1..] == [];
    if k.valid(r0.2) {
      assert ChainFrom(k, [p0], ii, ii, []) == ChainFrom(k, [], ii, r0.0, [] + [r0.1]);
      assert [] + [r0.1] == [r0.1];
    }
  }

  /** ChainP over two parsers, spelled out. */
  lemma ChainTwo<I, O, R>(k: Kind<R>, p0: Parser<I, O, R>, p1: Parser<I, O, R>, ii: I)
    ensures var r0 := p0(ii); var r1 := p1(r0.0);
      ChainP(k, [p0, p1])(ii) ==
        if !k.valid(r0.2) then (ii, [], r0.2)
        else if !k.valid(r1.2) then (ii, [], r1.2)
        else (r1.0, [r0.1, r1.1], k.validResult)
  {
    var ps := [p0, p1];
    assert ps[1..] == [p1] && ps[1..][1..] == [];
    var r0 := p0(ii);
    if k.valid(r0.2) {
      var r1 := p1(r0.0);
      assert ps[0] == p0;
      assert ChainFrom(k, ps, ii, ii, []) == ChainFrom(k, ps[1..], ii, r0.0, [] + [r0.1]);
      assert [] + [r0.1] == [r0.1];
      if k.valid(r1.2) {
        assert ChainFrom(k, [p1], ii, r0.0, [r0.1]) == ChainFrom(k, [], ii, r1.0, [r0.1] + [r1.1]);
        assert [r0.1] + [r1.1] == [r0.1, r1.1];
      }
    }
  }

  /** ChainP over three parsers, spelled out. */
  lemma ChainThree<I, O, R>(k: Kind<R>, p0: Parser<I, O, R>, p1: Parser<I, O, R>, p2: Parser<I, O, R>, ii: I)
    ensures var r0 := p0(ii); var r1 := p1(r0.0); var r2 := p2(r1.0);
      ChainP(k, [p0, p1, p2])(ii) ==
        if !k.valid(r0.2) then (ii, [], r0.2)
        else if !k.valid(r1.2) then (ii, [], r1.2)
        else if !k.valid(r2.2) then (ii, [], r2.2)
        else (r2.0, [r0.1, r1.1, r2.1], k.validResult)
  {
    var ps := [p0, p1, p2];
    assert ps[0] == p0 && ps[1..] == [p1, p2] && ps[1..][1..] == [p2] && ps[1..][1..][1..] == [];
    var r0 := p0(ii);
    if k.valid(r0.2) {
      var r1 := p1(r0.0);
      assert ChainFrom(k, ps, ii, ii, []) == ChainFrom(k, ps[1..], ii, r0.0, [] + [r0.1]);
      assert [] + [r0.1] == [r0.1];
      if k.valid(r1.2) {
        var r2 := p2(r1.0);
        assert ChainFrom(k, [p1, p2], ii, r0.0, [r0.1]) == ChainFrom(k, [p2], ii, r1.0, [r0.1] + [r1.1]);
        assert [r0.1] + [r1.1] == [r0.1, r1.1];
        if k.valid(r2.2) {
          assert ChainFrom(k, [p2], ii, r1.0, [r0.1, r1.1]) == ChainFrom(k, [], ii, r2.0, [r0.1, r1.1] + [r2.1]);
          assert [r0.1, r1.1] + [r2.1] == [r0.1, r1.1, r2.1];
        }
      }
    }
  }

  /** ChainP's loop: run each parser on the input left by the previous one, collecting outputs. */
  method ChainRun<I, O, R>(k: Kind<R>, ps: seq<Parser<I, O, R>>, ii: I) returns (r: (I, seq<O>, R))
    ensures r == ChainP(k, ps)(ii)
  {
    var res: seq<O> := [];
    var ii2 := ii;
    var i := 0;
    while i < |ps|
      invariant 0 <= i <= |ps|
      invariant ChainP(k, ps)(ii) == ChainFrom(k, ps[i..], ii, ii2, res)
    {
      assert ps[i..][0] == ps[i] && ps[i..][1..] == ps[i + 1..];
      var step := ps[i](ii2);
      if !k.valid(step.2) {
        return (ii, [], step.2);
      }
      res := res + [step.1];
      ii2 := step.0;
      i := i + 1;
    }
    return (ii2, res, k.validResult);
  }

  // ---------------------------------------------------------------- TryP

  function TryFrom<I, O, R>(k: Kind<R>, ps: seq<Parser<I, O, R>>, ii: I, zero: O): (I, O, BoolResult)
    decreases |ps|
  {
    if ps == [] then (ii, zero, OK(false))
    else
      var r := ps[0](ii);
      if k.valid(r.2) then (r.0, r.1, OK(true))
      else TryFrom(k, ps[1..], ii, zero)
  }

  /** TryP as parser.go:90-101 has it: the first valid alternative wins; any invalid result moves on. */
  function TryP<I, O, R>(k: Kind<R>, ps: seq<Parser<I, O, R>>, zero: O): Parser<I, O, BoolResult>
  {
    ii => TryFrom(k, ps, ii, zero)
  }

  lemma {:induction false} TryFromFirstValid<I, O, R>(k: Kind<R>, ps: seq<Parser<I, O, R>>, ii: I, zero: O, n: nat)
    requires n < |ps| && k.valid(ps[n](ii).2)
    requires forall j :: 0 <= j < n ==> !k.valid(ps[j](ii).2)
    ensures TryFrom(k, ps, ii, zero) == (ps[n](ii).0, ps[n](ii).1, OK(true))
    decreases |ps|
  {
    if n > 0 {
      assert ps[1..][n - 1] == ps[n];
      TryFromFirstValid(k, ps[1..], ii, zero, n - 1);
    }
  }

  /** TryP returns the cursor and output of the first valid alternative, with OK(true). */
  lemma TryFirstValid<I, O, R>(k: Kind<R>, ps: seq<Parser<I, O, R>>, ii: I, zero: O, n: nat)
    requires n < |ps| && k.valid(ps[n](ii).2)
    requires forall j :: 0 <= j < n ==> !k.valid(ps[j](ii).2)
    ensures TryP(k, ps, zero)(ii) == (ps[n](ii).0, ps[n](ii).1, OK(true))
  {
    TryFromFirstValid(k, ps, ii, zero, n);
  }

  lemma {:induction false} TryFromNoneValid<I, O, R>(k: Kind<R>, ps: seq<Parser<I, O, R>>, ii: I, zero: O)
    requires forall j :: 0 <= j < |ps| ==> !k.valid(ps[j](ii).2)
    ensures TryFrom(k, ps, ii, zero) == (ii, zero, OK(false))
    decreases |ps|
  {
    if ps != [] {
      assert !k.valid(ps[0](ii).2);
      forall j | 0 <= j < |ps[1..]| ensures !k.valid(ps[1..][j](ii).2) {
        assert ps[1..][j] == ps[j + 1];
      }
      TryFromNoneValid(k, ps[1..], ii, zero);
    }
  }

  /**
   * When no alternative is valid (an ErrResult carrying an error included), TryP returns
   * the original input, the zero output and OK(false).
   */
  lemma TryNoneValid<I, O, R>(k: Kind<R>, ps: seq<Parser<I, O, R>>, ii: I, zero: O)
    requires forall j :: 0 <= j < |ps| ==> !k.valid(ps[j](ii).2)
    ensures TryP(k, ps, zero)(ii) == (ii, zero, OK(false))
  {
    TryFromNoneValid(k, ps, ii, zero);
  }

  /** TryP's loop: the first alternative with a valid result wins. */
  method TryRun<I, O, R>(k: Kind<R>, ps: seq<Parser<I, O, R>>, zero: O, ii: I) returns (r: (I, O, BoolResult))
    ensures r == TryP(k, ps, zero)(ii)
  {
    var i := 0;
    while i < |ps|
      invariant 0 <= i <= |ps|
      invariant TryP(k, ps, zero)(ii) == TryFrom(k, ps[i..], ii, zero)
    {
      assert ps[i..][0] == ps[i] && ps[i..][1..] == ps[i + 1..];
      var step := ps[i](ii);
      if k.valid(step.2) {
        return (step.0, step.1, OK(true));
      }
      i := i + 1;
    }
    return (ii, zero, OK(false));
  }

  // ---------------------------------------------------------------- TryC

  /** An alternative decides the alternation when it matched or failed fatally. */
  predicate Decisive<E>(r: CombineResult<E>)
  {
    r.Valid() || r.Err.Some?
  }

  function TryCFrom<I, O, E>(ps: seq<Parser<I, O, CombineResult<E>>>, ii: I, zero: O): (I, O, CombineResult<E>)
    decreases |ps|
  {
    if ps == [] then (ii, zero, COK(false))
    else
      var r := ps[0](ii);
      if r.2.Valid() then (r.0, r.1, COK(true))
      else if r.2.Err.Some? then (ii, zero, r.2)
      else TryCFrom(ps[1..], ii, zero)
  }

  /**
   * The alternation deserialize.go calls as `Try` over combined results, whose definition is
   * not part of this model's sources: assumed to return the first alternative that matched,
   * and to stop at (and return) the first fatal error instead of trying later alternatives.
   */
  function TryC<I, O, E>(ps: seq<Parser<I, O, CombineResult<E>>>, zero: O): Parser<I, O, CombineResult<E>>
  {
    ii => TryCFrom(ps, ii, zero)
  }

  lemma {:induction false} TryCFromFirstDecisive<I, O, E>(ps: seq<Parser<I, O, CombineResult<E>>>, ii: I, zero: O, n: nat)
    requires n < |ps| && Decisive(ps[n](ii).2)
    requires forall j :: 0 <= j < n ==> !Decisive(ps[j](ii).2)
    ensures TryCFrom(ps, ii, zero) ==
      if ps[n](ii).2.Valid() then (ps[n](ii).0, ps[n](ii).1, COK(true)) else (ii, zero, ps[n](ii).2)
    decreases |ps|
  {
    if n > 0 {
      assert ps[1..][n - 1] == ps[n];
      TryCFromFirstDecisive(ps[1..], ii, zero, n - 1);
    }
  }

  /**
   * The first alternative that matched or failed fatally decides: a match returns its cursor
   * and output, a fatal error is returned with the original input.
   */
  lemma TryCFirstDecisive<I, O, E>(ps: seq<Parser<I, O, CombineResult<E>>>, ii: I, zero: O, n: nat)
    requires n < |ps| && Decisive(ps[n](ii).2)
    requires forall j :: 0 <= j < n ==> !Decisive(ps[j](ii).2)
    ensures TryC(ps, zero)(ii) ==
      if ps[n](ii).2.Valid() then (ps[n](ii).0, ps[n](ii).1, COK(true)) else (ii, zero, ps[n](ii).2)
  {
    TryCFromFirstDecisive(ps, ii, zero, n);
  }

  lemma {:induction false} TryCFromNoMatch<I, O, E>(ps: seq<Parser<I, O, CombineResult<E>>>, ii: I, zero: O)
    requires forall j :: 0 <= j < |ps| ==> !Decisive(ps[j](ii).2)
    ensures TryCFrom(ps, ii, zero) == (ii, zero, COK(false))
    decreases |ps|
  {
    if ps != [] {
      assert !Decisive(ps[0](ii).2);
      forall j | 0 <= j < |ps[1..]| ensures !Decisive(ps[1..][j](ii).2) {
        assert ps[1..][j] == ps[j + 1];
      }
      TryCFromNoMatch(ps[1..], ii, zero);
    }
  }

  /** When every alternative merely fails to match, the alternation is a plain no-match at the original input. */
  lemma TryCNoMatch<I, O, E>(ps: seq<Parser<I, O, CombineResult<E>>>, ii: I, zero: O)
    requires forall j :: 0 <= j < |ps| ==> !Decisive(ps[j](ii).2)
    ensures TryC(ps, zero)(ii) == (ii, zero, COK(false))
  {
    TryCFromNoMatch(ps, ii, zero);
  }

  /** TryC over two alternatives, spelled out. */
  lemma TryCPair<I, O, E>(p0: Parser<I, O, CombineResult<E>>, p1: Parser<I, O, CombineResult<E>>, ii: I, zero: O)
    ensures TryC([p0, p1], zero)(ii) ==
      if p0(ii).2.Valid() then (p0(ii).0, p0(ii).1, COK(true))
      else if p0(ii).2.Err.Some? then (ii, zero, p0(ii).2)
      else if p1(ii).2.Valid() then (p1(ii).0, p1(ii).1, COK(true))
      else if p1(ii).2.Err.Some? then (ii, zero, p1(ii).2)
      else (ii, zero, COK(false))
  {
    var ps := [p0, p1];
    assert ps[0] == p0 && ps[1..] == [p1] && [p1][1..] == [];
    var r0 := p0(ii);
    if !r0.2.Valid() && r0.2.Err.None? {
      assert TryCFrom(ps, ii, zero) == TryCFrom([p1], ii, zero);
      assert TryCFrom([p1], ii, zero) ==
        if p1(ii).2.Valid() then (p1(ii).0, p1(ii).1, COK(true))
        else if p1(ii).2.Err.Some? then (ii, zero, p1(ii).2)
        else TryCFrom([], ii, zero);
    }
  }

  lemma {:induction false} TryCFromValid<I, O, E>(ps: seq<Parser<I, O, CombineResult<E>>>, ii: I, zero: O)
    requires TryCFrom(ps, ii, zero).2.Valid()
    ensures exists n :: 0 <= n < |ps| && ps[n](ii).2.Valid() && TryCFrom(ps, ii, zero) == (ps[n](ii).0, ps[n](ii).1, COK(true))
    decreases |ps|
  {
    var r := ps[0](ii);
    if !r.2.Valid() {
      TryCFromValid(ps[1..], ii, zero);
      var n :| 0 <= n < |ps[1..]| && ps[1..][n](ii).2.Valid() && TryCFrom(ps[1..], ii, zero) == (ps[1..][n](ii).0, ps[1..][n](ii).1, COK(true));
      assert ps[1..][n] == ps[n + 1];
    }
  }

  /** A match of the alternation is the match of one of its alternatives, cursor and output alike. */
  lemma TryCValid<I, O, E>(ps: seq<Parser<I, O, CombineResult<E>>>, ii: I, zero: O)
    requires TryC(ps, zero)(ii).2.Valid()
    ensures exists n :: 0 <= n < |ps| && ps[n](ii).2.Valid() && TryC(ps, zero)(ii) == (ps[n](ii).0, ps[n](ii).1, COK(true))
  {
    TryCFromValid(ps, ii, zero);
  }

  // ---------------------------------------------------------------- Map, MapResult, Validate

  /** One application of Map. */
  function MapStep<I, O1, O2, R>(k: Kind<R>, parser: Parser<I, O1, R>, f: O1 -> O2, zero: O2, ii: I): (r: (I, O2, R))
    ensures r.0 == parser(ii).0 && r.2 == parser(ii).2
    ensures r.1 == if k.valid(parser(ii).2) then f(parser(ii).1) else zero
  {
    var r := parser(ii);
    if !k.valid(r.2) then (r.0, zero, r.2) else (r.0, f(r.1), r.2)
  }

  /** Map: f applies to the output of a valid parse only; cursor and result are the inner parser's. */
  function Map<I, O1, O2, R>(k: Kind<R>, parser: Parser<I, O1, R>, f: O1 -> O2, zero: O2): Parser<I, O2, R>
  {
    ii => MapStep(k, parser, f, zero, ii)
  }

  /** Map at one input, for callers whose inner parser is too large to unfold. */
  lemma MapAt<I, O1, O2, R>(k: Kind<R>, parser: Parser<I, O1, R>, f: O1 -> O2, zero: O2, ii: I)
    ensures Map(k, parser, f, zero)(ii) == (parser(ii).0, if k.valid(parser(ii).2) then f(parser(ii).1) else zero, parser(ii).2)
  {
  }

  /** One application of MapResult. */
  function MapResultStep<I, O, R1, R2>(parser: Parser<I, O, R1>, f: R1 -> R2, ii: I): (r: (I, O, R2))
    ensures r == (parser(ii).0, parser(ii).1, f(parser(ii).2))
  {
    var r := parser(ii);
    (r.0, r.1, f(r.2))
  }

  /** MapResult: only the result is transformed. */
  function MapResult<I, O, R1, R2>(parser: Parser<I, O, R1>, f: R1 -> R2): Parser<I, O, R2>
  {
    ii => MapResultStep(parser, f, ii)
  }

  /** One application of MapR. */
  function MapRStep<I, O, R1, R2>(parser: Parser<I, O, R1>, f: (I, R1) -> R2, ii: I): (r: (I, O, R2))
    ensures r == (parser(ii).0, parser(ii).1, f(parser(ii).0, parser(ii).2))
  {
    var r := parser(ii);
    (r.0, r.1, f(r.0, r.2))
  }

  /**
   * MapR, which the shown parser.go does not define: from its uses, the result is
   * transformed by a function that also sees the input the inner parser returned.
   */
  function MapR<I, O, R1, R2>(parser: Parser<I, O, R1>, f: (I, R1) -> R2): Parser<I, O, R2>
  {
    ii => MapRStep(parser, f, ii)
  }

  /** Discard: keep the cursor and result, drop the output. */
  function Discard<I, O, R>(k: Kind<R>, parser: Parser<I, O, R>): Parser<I, Empty, R>
  {
    Map(k, parser, (_: O) => Empty, Empty)
  }

  /** ToC for BoolResult parsers. */
  function BoolToC<I, O, E>(parser: Parser<I, O, BoolResult>): Parser<I, O, CombineResult<E>>
  {
    MapResult(parser, (r: BoolResult) => r.ToC())
  }

  /** ToC for ErrResult parsers. */
  function ErrToC<I, O, E>(parser: Parser<I, O, ErrResult<E>>): Parser<I, O, CombineResult<E>>
  {
    MapResult(parser, (r: ErrResult<E>) => r.ToC())
  }

  /**
   * One application of Validate: like Map, but f may itself fail. Both the inner parser
   * failing and f failing rewind to the original input; only a full success advances.
   */
  function ValidateStep<I, O1, O2, R>(k: Kind<R>, parser: Parser<I, O1, R>, f: O1 -> (O2, R), zero: O2, ii: I): (q: (I, O2, R))
    ensures k.valid(q.2) <==> k.valid(parser(ii).2) && k.valid(f(parser(ii).1).1)
    ensures !k.valid(q.2) ==> q.0 == ii && q.1 == zero
    ensures !k.valid(parser(ii).2) ==> q.2 == parser(ii).2
    ensures k.valid(parser(ii).2) && !k.valid(f(parser(ii).1).1) ==> q.2 == f(parser(ii).1).1
    ensures k.valid(q.2) ==> q == (parser(ii).0, f(parser(ii).1).0, parser(ii).2)
  {
    var r := parser(ii);
    if !k.valid(r.2) then (ii, zero, r.2)
    else
      var (o2, r2) := f(r.1);
      if !k.valid(r2) then (ii, zero, r2) else (r.0, o2, r.2)
  }

  /** Validate: map the output with a function that may reject it. */
  function Validate<I, O1, O2, R>(k: Kind<R>, parser: Parser<I, O1, R>, f: O1 -> (O2, R), zero: O2): Parser<I, O2, R>
  {
    ii => ValidateStep(k, parser, f, zero, ii)
  }

  // ---------------------------------------------------------------- FlattenP

  /** The in-order concatenation of the chained outputs (the append loop of FlattenP). */
  function Concat<O>(oo: seq<seq<O>>): seq<O>
  {
    if oo == [] then [] else oo[0] + Concat(oo[1..])
  }

  lemma ConcatTwo<O>(x: seq<O>, y: seq<O>)
    ensures Concat([x, y]) == x + y
  {
    var oo := [x, y];
    assert oo[1..] == [y] && oo[1..][1..] == [];
    assert Concat([y]) == y + [];
  }

  lemma ConcatThree<O>(x: seq<O>, y: seq<O>, z: seq<O>)
    ensures Concat([x, y, z]) == x + y + z
  {
    var oo := [x, y, z];
    assert oo[1..] == [y, z] && oo[1..][1..] == [z] && oo[1..][1..][1..] == [];
    assert Concat([z]) == z + [];
  }

  /** The sum of the lengths (the capacity loop of FlattenP). */
  function TotalLength<O>(oo: seq<seq<O>>): nat
  {
    if oo == [] then 0 else |oo[0]| + TotalLength(oo[1..])
  }

  lemma {:induction false} ConcatLength<O>(oo: seq<seq<O>>)
    ensures |Concat(oo)| == TotalLength(oo)
  {
    if oo != [] { ConcatLength(oo[1..]); }
  }

  lemma {:induction false} TotalLengthPrefix<O>(oo: seq<seq<O>>, j: nat)
    requires j < |oo|
    ensures TotalLength(oo[..j + 1]) == TotalLength(oo[..j]) + |oo[j]|
  {
    if j == 0 {
      assert oo[..1][1..] == [];
    } else {
      assert oo[..j + 1][1..] == oo[1..][..j];
      assert oo[..j][1..] == oo[1..][..j - 1];
      TotalLengthPrefix(oo[1..], j - 1);
    }
  }

  /** Element t of chunk j sits in the concatenation right after the earlier chunks. */
  lemma {:induction false} ConcatAt<O>(oo: seq<seq<O>>, j: nat, t: nat)
    requires j < |oo| && t < |oo[j]|
    ensures TotalLength(oo[..j]) + t < |Concat(oo)|
    ensures Concat(oo)[TotalLength(oo[..j]) + t] == oo[j][t]
  {
    ConcatLength(oo);
    TotalLengthPrefix(oo, j);
    ConcatLength(oo[..j + 1]);
    if j == 0 {
      assert oo[..0] == [];
    } else {
      assert oo[..j][1..] == oo[1..][..j - 1];
      ConcatAt(oo[1..], j - 1, t);
      assert Concat(oo) == oo[0] + Concat(oo[1..]);
    }
  }

  /** Concatenating one more chunk at the end. */
  lemma {:induction false} ConcatSnoc<O>(oo: seq<seq<O>>, j: nat)
    requires j < |oo|
    ensures Concat(oo[..j + 1]) == Concat(oo[..j]) + oo[j]
  {
    if j == 0 {
      assert oo[..1] == [oo[0]] && oo[..0] == [];
      assert Concat(oo[..1]) == oo[0] + Concat(oo[..1][1..]);
      assert oo[..1][1..] == [];
    } else {
      assert oo[..j + 1][1..] == oo[1..][..j];
      assert oo[..j][1..] == oo[1..][..j - 1];
      ConcatSnoc(oo[1..], j - 1);
      assert oo[1..][j - 1] == oo[j];
    }
  }

  /** The mapping function of FlattenP: append every chunk, in order, to an initially empty slice. */
  method FlattenRun<O>(oo: seq<seq<O>>) returns (out: seq<O>)
    ensures out == Concat(oo)
    ensures |out| == TotalLength(oo)
  {
    out := [];
    var i := 0;
    while i < |oo|
      invariant 0 <= i <= |oo|
      invariant out == Concat(oo[..i])
    {
      ConcatSnoc(oo, i);
      out := out + oo[i];
      i := i + 1;
    }
    assert oo[..|oo|] == oo;
    ConcatLength(oo);
  }

  /** FlattenP: chain the parsers and concatenate their outputs. */
  function FlattenP<I, O, R>(k: Kind<R>, ps: seq<Parser<I, seq<O>, R>>): Parser<I, seq<O>, R>
  {
    Map(k, ChainP(k, ps), Concat, [])
  }

  /**
   * When every chained parser succeeds, FlattenP's output is the concatenation of their
   * outputs, whose length is the sum of theirs.
   */
  lemma FlattenAllValid<I, O, R>(k: Kind<R>, ps: seq<Parser<I, seq<O>, R>>, ii: I)
    requires k.Sound()
    requires forall j :: 0 <= j < |ps| ==> k.valid(Steps(ps, ii)[j].2)
    ensures FlattenP(k, ps)(ii).1 == Concat(Outputs(Steps(ps, ii)))
    ensures |FlattenP(k, ps)(ii).1| == TotalLength(Outputs(Steps(ps, ii)))
    ensures FlattenP(k, ps)(ii).0 == Last(ii, Steps(ps, ii))
  {
    ChainAllValid(k, ps, ii);
    ConcatLength(Outputs(Steps(ps, ii)));
  }
}
