/**
 * The one-shot fluent `CollaborativeFilter.Builder`: setters update one field of the
 * filter under construction; `build` hands the filter out and drops the builder's
 * reference, after which every further call fails on the null reference.
 */
module Builder {
  import opened Wrappers
  import opened Config

  /** The builder's state: the filter under construction, or `None` once built. */
  datatype Builder = Builder(cf: Option<CollaborativeFilter>)

  /** `Builder.create()`: a builder holding a freshly constructed filter. */
  function Create(): (b: Builder)
    ensures b.cf.Some? && !b.cf.value.rowNorm && b.cf.value.emitter.None? && b.cf.value.threshold == 0.0
  {
    Builder(Some(Fresh()))
  }

  /** `withEmitter`: the argument may be null (`None`), which clears the emitter field. */
  function WithEmitter(b: Builder, emitter: Option<Emitter>): (r: Result<Builder, Fault>)
    ensures b.cf.None? <==> r.Failure?
    ensures r.Success? ==>
              r.value.cf == Some(CollaborativeFilter(emitter, b.cf.value.rowNorm, b.cf.value.threshold))
  {
    match b.cf
    case None => Failure(NullPointer)
    case Some(cf) => Success(Builder(Some(cf.(emitter := emitter))))
  }

  function WithRowNorm(b: Builder, rowNorm: bool): (r: Result<Builder, Fault>)
    ensures b.cf.None? <==> r.Failure?
    ensures r.Success? ==>
              r.value.cf == Some(CollaborativeFilter(b.cf.value.emitter, rowNorm, b.cf.value.threshold))
  {
    match b.cf
    case None => Failure(NullPointer)
    case Some(cf) => Success(Builder(Some(cf.(rowNorm := rowNorm))))
  }

  function WithThreshold(b: Builder, threshold: real): (r: Result<Builder, Fault>)
    ensures b.cf.None? <==> r.Failure?
    ensures r.Success? ==>
              r.value.cf == Some(CollaborativeFilter(b.cf.value.emitter, b.cf.value.rowNorm, threshold))
  {
    match b.cf
    case None => Failure(NullPointer)
    case Some(cf) => Success(Builder(Some(cf.(threshold := threshold))))
  }

  /** `build()`: the held filter and a builder whose reference is cleared. */
  function Build(b: Builder): (r: Result<(Builder, CollaborativeFilter), Fault>)
    ensures b.cf.None? <==> r.Failure?
    ensures r.Success? ==> r.value.0.cf.None? && b.cf == Some(r.value.1)
  {
    match b.cf
    case None => Failure(NullPointer)
    case Some(cf) => Success((Builder(None), cf))
  }

  /** One call a client may make on a builder. */
  datatype Call = EmitterCall(emitter: Option<Emitter>) | RowNormCall(rowNorm: bool) | ThresholdCall(threshold: real) | BuildCall

  /** The builder state after one call, plus the filter it built if it was `build()`. */
  function Step(b: Builder, c: Call): (r: Result<(Builder, Option<CollaborativeFilter>), Fault>) {
    match c
    case EmitterCall(e) =>
      (match WithEmitter(b, e) case Failure(f) => Failure(f) case Success(b') => Success((b', None)))
    case RowNormCall(n) =>
      (match WithRowNorm(b, n) case Failure(f) => Failure(f) case Success(b') => Success((b', None)))
    case ThresholdCall(t) =>
      (match WithThreshold(b, t) case Failure(f) => Failure(f) case Success(b') => Success((b', None)))
    case BuildCall =>
      (match Build(b) case Failure(f) => Failure(f) case Success((b', cf)) => Success((b', Some(cf))))
  }

  /**
   * A session of calls on one builder: the final builder and the filters built,
   * in order, or the fault of the first failing call.
   */
  function Session(b: Builder, calls: seq<Call>): (r: Result<(Builder, seq<CollaborativeFilter>), Fault>)
    decreases |calls|
  {
    if calls == [] then Success((b, []))
    else
      match Step(b, calls[0])
      case Failure(f) => Failure(f)
      case Success((b', built)) =>
        match Session(b', calls[1..])
        case Failure(f) => Failure(f)
        case Success((last, rest)) =>
          Success((last, (if built.Some? then [built.value] else []) + rest))
  }

  /** The value (null included) of the last emitter setter in `calls`, or `dflt` when there is none. */
  function LastEmitter(calls: seq<Call>, dflt: Option<Emitter>): (e: Option<Emitter>)
    decreases |calls|
  {
    if calls == [] then dflt
    else if calls[|calls| - 1].EmitterCall? then calls[|calls| - 1].emitter
    else LastEmitter(calls[..|calls| - 1], dflt)
  }

  /** The value of the last row-normalisation setter in `calls`, or `dflt`. */
  function LastRowNorm(calls: seq<Call>, dflt: bool): (rowNorm: bool)
    decreases |calls|
  {
    if calls == [] then dflt
    else if calls[|calls| - 1].RowNormCall? then calls[|calls| - 1].rowNorm
    else LastRowNorm(calls[..|calls| - 1], dflt)
  }

  /** The value of the last threshold setter in `calls`, or `dflt`. */
  function LastThreshold(calls: seq<Call>, dflt: real): (threshold: real)
    decreases |calls|
  {
    if calls == [] then dflt
    else if calls[|calls| - 1].ThresholdCall? then calls[|calls| - 1].threshold
    else LastThreshold(calls[..|calls| - 1], dflt)
  }

  /** The filter `cf` after the setters in `calls`: for each field, the last write wins. */
  function Configured(cf: CollaborativeFilter, calls: seq<Call>): (configured: CollaborativeFilter) {
    CollaborativeFilter(LastEmitter(calls, cf.emitter), LastRowNorm(calls, cf.rowNorm), LastThreshold(calls, cf.threshold))
  }

  /** No call other than possibly the last one is a `build()`. */
  predicate NothingAfterBuild(calls: seq<Call>) {
    forall i | 0 <= i < |calls| - 1 :: !calls[i].BuildCall?
  }

  /** The filter after a single setter call. */
  function Apply(cf: CollaborativeFilter, c: Call): (updated: CollaborativeFilter) {
    match c
    case EmitterCall(e) => cf.(emitter := e)
    case RowNormCall(n) => cf.(rowNorm := n)
    case ThresholdCall(t) => cf.(threshold := t)
    case BuildCall => cf
  }

  // The three `Last...Cons` lemmas follow one pattern, one per builder field: moving
  // the first call into the default value does not change the last write.

  lemma {:induction false} LastEmitterCons(c: Call, calls: seq<Call>, dflt: Option<Emitter>)
    ensures LastEmitter([c] + calls, dflt) == LastEmitter(calls, if c.EmitterCall? then c.emitter else dflt)
    decreases |calls|
  {
    if calls != [] {
      assert ([c] + calls)[..|calls|] == [c] + calls[..|calls| - 1];
      LastEmitterCons(c, calls[..|calls| - 1], dflt);
    }
  }

  lemma {:induction false} LastRowNormCons(c: Call, calls: seq<Call>, dflt: bool)
    ensures LastRowNorm([c] + calls, dflt) == LastRowNorm(calls, if c.RowNormCall? then c.rowNorm else dflt)
    decreases |calls|
  {
    if calls != [] {
      assert ([c] + calls)[..|calls|] == [c] + calls[..|calls| - 1];
      LastRowNormCons(c, calls[..|calls| - 1], dflt);
    }
  }

  lemma {:induction false} LastThresholdCons(c: Call, calls: seq<Call>, dflt: real)
    ensures LastThreshold([c] + calls, dflt) == LastThreshold(calls, if c.ThresholdCall? then c.threshold else dflt)
    decreases |calls|
  {
    if calls != [] {
      assert ([c] + calls)[..|calls|] == [c] + calls[..|calls| - 1];
      LastThresholdCons(c, calls[..|calls| - 1], dflt);
    }
  }

  /** Applying one setter and then the rest is configuring with all of them. */
  lemma ConfiguredCons(cf: CollaborativeFilter, c: Call, calls: seq<Call>)
    requires !c.BuildCall?
    ensures Configured(cf, [c] + calls) == Configured(Apply(cf, c), calls)
  {
    LastEmitterCons(c, calls, cf.emitter);
    LastRowNormCons(c, calls, cf.rowNorm);
    LastThresholdCons(c, calls, cf.threshold);
  }

  /** Once built, a builder rejects every call: a non-empty session on it fails. */
  lemma SpentSessionFails(calls: seq<Call>)
    ensures Session(Builder(None), calls).Success? <==> calls == []
  {
  }

  /**
   * The one-shot discipline, from a builder that still holds a filter: a session
   * succeeds exactly when no call follows a `build()`; it builds at most one filter,
   * and that filter carries, field by field, the last value written before `build()`.
   */
  lemma {:induction false} SessionOneShot(cf: CollaborativeFilter, calls: seq<Call>)
    ensures Session(Builder(Some(cf)), calls).Success? <==> NothingAfterBuild(calls)
    ensures Session(Builder(Some(cf)), calls).Success? ==>
              var (b, built) := Session(Builder(Some(cf)), calls).value;
              if calls != [] && calls[|calls| - 1].BuildCall?
              then b.cf.None? && built == [Configured(cf, calls[..|calls| - 1])]
              else b.cf == Some(Configured(cf, calls)) && built == []
    decreases |calls|
  {
    if calls != [] {
      var c := calls[0];
      var rest := calls[1..];
      assert calls == [c] + rest;
      if c.BuildCall? {
        SpentSessionFails(rest);
        if rest != [] {
          assert calls[0].BuildCall? && 0 < |calls| - 1;
        }
      } else {
        var cf' := Apply(cf, c);
        assert Step(Builder(Some(cf)), c) == Success((Builder(Some(cf')), None));
        SessionOneShot(cf', rest);
        assert NothingAfterBuild(calls) <==> NothingAfterBuild(rest) by {
          forall i | 0 <= i < |rest| - 1
            ensures rest[i] == calls[i + 1]
          {
          }
        }
        ConfiguredCons(cf, c, rest);
        if rest != [] {
          assert calls[..|calls| - 1] == [c] + rest[..|rest| - 1];
          ConfiguredCons(cf, c, rest[..|rest| - 1]);
        }
      }
    }
  }

  /**
   * The usual chain `create().with...().build()`: exactly one filter is built, with
   * row normalisation off unless set, and the builder is spent afterwards.
   */
  lemma BuildChain(setters: seq<Call>)
    requires forall i | 0 <= i < |setters| :: !setters[i].BuildCall?
    ensures Session(Create(), setters + [BuildCall]).Success?
    ensures var (b, built) := Session(Create(), setters + [BuildCall]).value;
            b.cf.None? && built == [Configured(Fresh(), setters)]
    ensures (forall i | 0 <= i < |setters| :: !setters[i].RowNormCall?) ==>
              !Session(Create(), setters + [BuildCall]).value.1[0].rowNorm
  {
    var calls := setters + [BuildCall];
    assert calls[..|calls| - 1] == setters;
    SessionOneShot(Fresh(), calls);
    if forall i | 0 <= i < |setters| :: !setters[i].RowNormCall? {
      NoRowNormCallKeepsDefault(setters, false);
    }
  }

  lemma {:induction false} NoRowNormCallKeepsDefault(calls: seq<Call>, dflt: bool)
    requires forall i | 0 <= i < |calls| :: !calls[i].RowNormCall?
    ensures LastRowNorm(calls, dflt) == dflt
    decreases |calls|
  {
    if calls != [] {
      NoRowNormCallKeepsDefault(calls[..|calls| - 1], dflt);
    }
  }
}
