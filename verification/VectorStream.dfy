// The encoding command: a whole log stream becomes a vector file, one vector a record.
module VectorStream {
  import opened Options
  import opened Bytes
  import opened Windows
  import opened Parser
  import opened Renderer
  import opened Records
  import opened Stream
  import opened Analytics
  import opened Entropy
  import opened Protocol
  import opened Pid
  import opened Vectors
  import opened Ieee754
  import opened VectorFile
  import opened Encoder

  type Duration = x: real | 0.0 <= x

  /**
   * What the machine contributes: square roots, the seconds elapsed when the k-th record is built,
   * and the double a real is rounded to.
   */
  datatype Machine = Machine(root: real -> real, elapsed: nat -> Duration, round: real -> Bits64)

  /** The logarithm is one, and rounding maps the unit interval into itself. */
  ghost predicate Sound(machine: Machine, log2: Logarithm, slope: real) {
    IsLog2(log2, slope) && forall x :: IsUnit(x) ==> UnitBits(machine.round(x))
  }

  // ----- What is exported of a record -----

  /**
   * The exported phase: that reached by the last of these records if it carries an accepted event,
   * and Cold otherwise, whatever phase the service is in.
   */
  ghost function ExportedPhase(settings: Settings, records: seq<seq<Byte>>): Phase
    requires records != []
  {
    var n := |records| - 1;
    if settings.verifyProtocol && Accepts(RunFrom(Cold, Payloads(records[..n])), Payload(records[n]))
    then RunFrom(Cold, Payloads(records))
    else Cold
  }

  ghost function MetricsOf(settings: Settings, machine: Machine, records: seq<seq<Byte>>): Metrics
    requires records != []
  {
    var payload := Payload(records[|records| - 1]);
    var analysis := LatestAnalysis(settings, records).GetOr(Analysis(0.0, 0.0, false));
    Metrics(
      |payload|, SeverityOf(settings.plugin, payload), analysis.errorEntropy, machine.root(analysis.zscoreSquared),
      ExportedPhase(settings, records), ExtractPid(payload), machine.elapsed(|records|))
  }

  function Rounded(machine: Machine, v: Features): StateVector {
    Vector(
      machine.round(v.length), machine.round(v.severity), machine.round(v.frequency), machine.round(v.timestamp),
      machine.round(v.processId), machine.round(v.entropy), machine.round(v.zscore), machine.round(v.protocol))
  }

  /** Rounding keeps every feature in its place. */
  lemma RoundedInPlace(machine: Machine, v: Features)
    ensures forall k | 0 <= k < 8 :: Components(Rounded(machine, v))[k] == machine.round(Components(v)[k])
  {
  }

  /** What can be read back from the features exported for the last of these records. */
  lemma RecordReadsBack(settings: Settings, machine: Machine, records: seq<seq<Byte>>, slope: real)
    requires records != [] && Sound(machine, settings.log2, slope)
    ensures var f := FromComponents(FeaturesOf(MetricsOf(settings, machine, records), |records|));
      var payload := Payload(records[|records| - 1]);
      && SeverityOfFeature(f.severity) == SeverityOf(settings.plugin, payload)
      && f.length * 1024.0 == (if |payload| <= 1024 then |payload| else 1024) as real
      && f.processId * 4194304.0 == (ExtractPid(payload) % 4194304) as real
      && f.protocol * 4.0 == PhaseCode(ExportedPhase(settings, records)) as real
      && IsRest(machine.elapsed(|records|), 60.0, f.timestamp * 60.0)
      && (settings.analytics.None? ==> f.entropy == 0.0)
      && (settings.analytics.Some? ==> f.entropy == LatestAnalysis(settings, records).value.errorEntropy)
      && var z := machine.root(
          if settings.analytics.Some? then LatestAnalysis(settings, records).value.zscoreSquared else 0.0);
        f.zscore * 10.0 == if z < 0.0 then 0.0 else if z <= 10.0 then z else 10.0
  {
    hide FeaturesOf, SeverityOf, Payload, ExportedPhase, IsLog2, LatestAnalysis, SeverityOfFeature, IsRest;
    MetricsAreSound(settings, machine, records, slope);
    MetricsReadBack(MetricsOf(settings, machine, records), |records|);
    AnalysisHasEntropy(settings, records, slope);
  }

  ghost function VectorOf(settings: Settings, machine: Machine, records: seq<seq<Byte>>): StateVector
    requires records != []
  {
    Rounded(machine, FromComponents(FeaturesOf(MetricsOf(settings, machine, records), |records|)))
  }

  /** One vector a record; each depends on the records up to its own. */
  ghost function VectorsOf(settings: Settings, machine: Machine, records: seq<seq<Byte>>): (r: seq<StateVector>)
    ensures |r| == |records|
  {
    if records == [] then []
    else VectorsOf(settings, machine, records[..|records| - 1]) + [VectorOf(settings, machine, records)]
  }

  lemma AnalysisHasEntropy(settings: Settings, records: seq<seq<Byte>>, slope: real)
    requires records != [] && IsLog2(settings.log2, slope)
    ensures 0.0 <= LatestAnalysis(settings, records).GetOr(Analysis(0.0, 0.0, false)).errorEntropy <= 1.0
    ensures settings.analytics.Some? <==> LatestAnalysis(settings, records).Some?
  {
    hide IsLog2, AnalysisOf;
    match settings.analytics {
      case None =>
      case Some((requested, threshold)) =>
        var samples := LastN(SamplesOf(settings.plugin, records), Capacity(requested));
        ReportedEntropy(samples, threshold, settings.log2, slope);
    }
  }

  lemma MetricsAreSound(settings: Settings, machine: Machine, records: seq<seq<Byte>>, slope: real)
    requires records != [] && Sound(machine, settings.log2, slope)
    ensures IsMetrics(MetricsOf(settings, machine, records))
  {
    hide LatestAnalysis, SeverityOf, Payload, ExportedPhase, IsLog2;
    AnalysisHasEntropy(settings, records, slope);
  }

  lemma RoundedIsValid(machine: Machine, v: Features)
    requires AllUnit(Components(v)) && forall x :: IsUnit(x) ==> UnitBits(machine.round(x))
    ensures VectorFile.IsValid(Rounded(machine, v))
  {
    hide IsUnit, UnitBits;
    AllUnitOfEight(Components(v));
  }

  lemma VectorIsValid(settings: Settings, machine: Machine, records: seq<seq<Byte>>, slope: real)
    requires records != [] && Sound(machine, settings.log2, slope)
    ensures VectorFile.IsValid(VectorOf(settings, machine, records))
  {
    hide VectorFile.IsValid, Rounded, MetricsOf, FeaturesOf, IsLog2, AllUnit, IsUnit, UnitBits;
    MetricsAreSound(settings, machine, records, slope);
    FeaturesAreUnit(MetricsOf(settings, machine, records), |records|);
    RoundedIsValid(machine, FromComponents(FeaturesOf(MetricsOf(settings, machine, records), |records|)));
  }

  /** Every exported vector is valid. */
  lemma {:induction false} VectorsAreValid(settings: Settings, machine: Machine, records: seq<seq<Byte>>, slope: real)
    requires Sound(machine, settings.log2, slope)
    ensures AllValid(VectorsOf(settings, machine, records))
  {
    if records != [] {
      hide VectorFile.IsValid, VectorOf, Sound;
      VectorsAreValid(settings, machine, records[..|records| - 1], slope);
      VectorIsValid(settings, machine, records, slope);
    }
  }

  /**
   * A phase other than Cold is exported for a record exactly when its event was accepted and is no
   * reset, and then the events accepted since the last reset are the lifecycle up to that phase.
   */
  lemma ExportedPhaseIff(settings: Settings, records: seq<seq<Byte>>)
    requires records != []
    ensures var n := |records| - 1;
      var event := DetectEvent(Payload(records[n]));
      && (ExportedPhase(settings, records) != Cold <==>
            settings.verifyProtocol && event != Some(Reset)
            && Accepts(RunFrom(Cold, Payloads(records[..n])), Payload(records[n])))
      && (ExportedPhase(settings, records) != Cold ==>
            && event.Some?
            && EventCode(event.value) + 1 == PhaseCode(ExportedPhase(settings, records))
            && SinceReset(AcceptedEvents(Cold, Payloads(records)))
               == LIFECYCLE[..PhaseCode(ExportedPhase(settings, records))])
  {
    hide DetectEvent, Payload, SinceReset, AcceptedEvents;
    var n := |records| - 1;
    assert Payloads(records)[..n] == Payloads(records[..n]);
    PhaseRecordsHistory(Payloads(records));
  }

  // ----- The loop -----

  ghost predicate EncoderInStep(encoder: VectorEncoder, count: nat)
    reads encoder, encoder.builder
  {
    encoder.Valid() && |encoder.observed| == count
  }

  ghost predicate WriterInStep(writer: VectorWriter, vectors: seq<StateVector>)
    reads writer
  {
    writer.Valid() && writer.written == vectors
  }

  /** The phase that the encoder is given for one record. */
  method InspectPhase(settings: Settings, verifier: ProtocolVerifier?, ghost records: seq<seq<Byte>>, line: seq<Byte>)
    returns (phase: Phase)
    requires VerifierInStep(settings, verifier, records)
    modifies verifier
    ensures VerifierInStep(settings, verifier, records + [line])
    ensures phase == ExportedPhase(settings, records + [line])
  {
    hide DetectEvent, Payload, RunFrom, SinceReset, AcceptedEvents;
    phase := Cold;
    PayloadsAppend(records, line);
    assert (records + [line])[..|records|] == records;
    if verifier != null {
      var verdict := verifier.Inspect(Payload(line));
      if verdict.Some? && verdict.value.Ok? {
        phase := verdict.value.value;
      }
    }
  }

  method EncodeAndWrite(encoder: VectorEncoder, writer: VectorWriter, m: Metrics, machine: Machine, ghost count: nat)
    requires IsMetrics(m) && EncoderInStep(encoder, count) && writer.Valid()
    modifies encoder, encoder.builder, writer
    ensures EncoderInStep(encoder, count + 1) && writer.Valid()
    ensures writer.written == old(writer.written) + [Rounded(machine, FromComponents(FeaturesOf(m, count + 1)))]
  {
    hide FeaturesOf, Rounded;
    var vector, _ := encoder.Encode(m);
    ComponentsInjective(vector, FromComponents(FeaturesOf(m, count + 1)));
    writer.Write(Rounded(machine, vector));
  }

  /** What the encoder is given for one record. */
  method Measure(processor: Processor, window: AnalyticsWindow?, verifier: ProtocolVerifier?, settings: Settings,
      machine: Machine, count: nat, ghost records: seq<seq<Byte>>, line: seq<Byte>) returns (m: Metrics)
    requires processor.plugin == settings.plugin && count == |records| + 1
    requires WindowInStep(settings, window, records) && VerifierInStep(settings, verifier, records)
    modifies processor`tokens, window, verifier
    ensures WindowInStep(settings, window, records + [line]) && VerifierInStep(settings, verifier, records + [line])
    ensures m == MetricsOf(settings, machine, records + [line])
  {
    hide SeverityOf, Payload, WindowInStep, VerifierInStep, LatestAnalysis, ExportedPhase, TokensOf;
    var payload := Payload(line);
    var severity, _ := processor.Process(payload, false);
    var verdict := Analyze(settings, window, records, line, severity);
    var analysis := verdict.GetOr(Analysis(0.0, 0.0, false));
    var phase := InspectPhase(settings, verifier, records, line);
    m := Metrics(|payload|, severity, analysis.errorEntropy, machine.root(analysis.zscoreSquared), phase,
      ExtractPid(payload), machine.elapsed(count));
  }

  /** The body of the loop: one record becomes one vector of the file. */
  method EncodeRecord(processor: Processor, window: AnalyticsWindow?, verifier: ProtocolVerifier?,
      encoder: VectorEncoder, writer: VectorWriter, settings: Settings, machine: Machine,
      ghost slope: real, ghost records: seq<seq<Byte>>, line: seq<Byte>)
    requires processor.plugin == settings.plugin && Sound(machine, settings.log2, slope)
    requires WindowInStep(settings, window, records) && VerifierInStep(settings, verifier, records)
    requires EncoderInStep(encoder, |records|) && WriterInStep(writer, VectorsOf(settings, machine, records))
    modifies processor`tokens, window, verifier, encoder, encoder.builder, writer
    ensures WindowInStep(settings, window, records + [line]) && VerifierInStep(settings, verifier, records + [line])
    ensures EncoderInStep(encoder, |records| + 1)
    ensures WriterInStep(writer, VectorsOf(settings, machine, records + [line]))
  {
    hide WindowInStep, VerifierInStep, MetricsOf, Rounded, FeaturesOf, Sound;
    ghost var all := records + [line];
    assert all[..|records|] == records;
    var m := Measure(processor, window, verifier, settings, machine, encoder.vectorCount + 1, records, line);
    MetricsAreSound(settings, machine, all, slope);
    EncodeAndWrite(encoder, writer, m, machine, |records|);
  }

  /** The loop of `EncodeStream`, once its objects exist. */
  method EncodeLoop(input: BufferedInput, processor: Processor, window: AnalyticsWindow?, verifier: ProtocolVerifier?,
      encoder: VectorEncoder, writer: VectorWriter, settings: Settings, machine: Machine, ghost slope: real)
    returns (r: Result<(), IoError>)
    requires processor.plugin == settings.plugin && Sound(machine, settings.log2, slope)
    requires WindowInStep(settings, window, []) && VerifierInStep(settings, verifier, [])
    requires EncoderInStep(encoder, 0) && WriterInStep(writer, [])
    modifies input, processor`tokens, window, verifier, encoder, encoder.builder, writer
    ensures var records := Split(old(input.remaining));
      && (r.Ok? <==> Fitting(records) == |records|)
      && (r.Ok? ==> input.remaining == [])
      && WriterInStep(writer, VectorsOf(settings, machine, records[..Fitting(records)]))
  {
    hide Split, RecordLength, WindowInStep, VerifierInStep, VectorsOf, Sound, EncoderInStep, WriterInStep;
    ghost var records := Split(input.remaining);
    ghost var done := 0;
    assert records[..0] == [];
    NoVectors(settings, machine);
    while true
      invariant done <= |records| && records[done..] == Split(input.remaining)
      invariant forall i | 0 <= i < done :: Fits(records[i])
      invariant WindowInStep(settings, window, records[..done]) && VerifierInStep(settings, verifier, records[..done])
      invariant EncoderInStep(encoder, done)
      invariant WriterInStep(writer, VectorsOf(settings, machine, records[..done]))
      decreases |input.remaining|
    {
      ghost var left := input.remaining;
      var length, line := ReadRecord(input);
      EmptyLength();
      if length.Err? {
        SplitStep(left, RecordLength(left));
        FittingIs(records, done);
        return Err(length.error);
      }
      if length.value == 0 {
        EmptyRecord(left);
        FittingIs(records, done);
        return Ok(());
      }
      SplitStep(left, RecordLength(left));
      assert line == records[done];
      assert records[..done + 1] == records[..done] + [line];
      EncodeRecord(processor, window, verifier, encoder, writer, settings, machine, slope, records[..done], line);
      done := done + 1;
    }
  }

  lemma NoVectors(settings: Settings, machine: Machine)
    ensures VectorsOf(settings, machine, []) == []
  {
  }

  /**
   * Whatever the buffering: the file holds one vector for each record up to the first oversized one,
   * in order, and decodes to exactly those vectors; the run succeeds exactly when none is oversized.
   */
  method EncodeStream(input: BufferedInput, settings: Settings, machine: Machine, ghost slope: real)
    returns (r: Result<(), IoError>, file: seq<Octet>)
    requires Sound(machine, settings.log2, slope)
    modifies input
    ensures var records := Split(old(input.remaining));
      var vectors := VectorsOf(settings, machine, records[..Fitting(records)]);
      && (r.Ok? <==> Fitting(records) == |records|)
      && (r.Ok? ==> input.remaining == [] && |vectors| == |records|)
      && file == Encoded(vectors)
      && Decode(file) == Ok(vectors)
  {
    hide Split, WindowInStep, VerifierInStep, VectorsOf, Encoded, Decode, Sound;
    ghost var records := Split(input.remaining);
    ghost var fitting := records[..Fitting(records)];
    var processor := new Processor(settings.plugin);
    var window, verifier := Observers(settings);
    var writer := new VectorWriter.Create();
    var encoder := new VectorEncoder();
    r := EncodeLoop(input, processor, window, verifier, encoder, writer, settings, machine, slope);
    file := writer.file;
    VectorsAreValid(settings, machine, fitting, slope);
    FileAcceptedIff(file, VectorsOf(settings, machine, fitting));
  }
}
