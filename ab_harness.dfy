/** `AbBenchmarkHarness.RunLatencyABAsync`: the same inputs measured first through the
    chain pipeline, then through the graph pipeline, each run a `MeasureMany` with one
    trial per input. A trial takes the next index from its run's counter and runs the
    pipeline on the input there. A pipeline is an input: `run(k, x)` is what its k-th
    call (from 0) does on input x. */
module AbHarness {

  import opened Wrappers
  import opened BenchmarkStats
  import opened Formatting

  datatype Pipeline = ChainPipeline | GraphPipeline

  /** One call of a pipeline on an input. */
  datatype Invocation = Invocation(pipeline: Pipeline, input: string)

  /** `string.IsNullOrWhiteSpace` for a present string. */
  predicate IsBlank(s: string) {
    forall k :: 0 <= k < |s| ==> IsWhiteSpace(s[k])
  }

  /** `Math.Clamp(v, lo, hi)`. */
  function Clamp(v: int, lo: int, hi: int): (r: int)
    requires lo <= hi
    ensures lo <= r <= hi
    ensures lo <= v <= hi ==> r == v
    ensures v < lo ==> r == lo
    ensures v > hi ==> r == hi
  {
    if v < lo then lo else if v > hi then hi else v
  }

  // ---------------------------------------------------------------------------
  // The index counter of one run
  // ---------------------------------------------------------------------------

  /** The captured `chainIndex` / `graphIndex` variable. */
  class IndexCounter {
    var count: int

    constructor()
      ensures count == 0
    {
      count := 0;
    }

    /** `Interlocked.Increment(ref index) - 1`. */
    method Take() returns (i: int)
      modifies this
      ensures count == old(count) + 1 && i == old(count)
    {
      count := count + 1;
      i := count - 1;
    }
  }

  /** The input one trial runs on: the counter's next index, clamped to the list. */
  method NextInput(counter: IndexCounter, inputs: seq<string>) returns (input: string)
    requires |inputs| > 0
    modifies counter
    ensures counter.count == old(counter.count) + 1
    ensures input == inputs[Clamp(old(counter.count), 0, |inputs| - 1)]
  {
    var i := counter.Take();
    var idx := Clamp(i, 0, |inputs| - 1);
    input := inputs[idx];
  }

  /** The trials of one run, awaited one after the other from a fresh counter, receive
      the inputs in list order, each exactly once. */
  method DispenseRun(inputs: seq<string>) returns (handed: seq<string>)
    requires |inputs| > 0
    ensures handed == inputs
  {
    var counter := new IndexCounter();
    handed := [];
    for k := 0 to |inputs|
      invariant counter.count == k && handed == inputs[..k]
    {
      var x := NextInput(counter, inputs);
      handed := handed + [x];
    }
  }

  /** The operation `MeasureMany` sees in a run of pipeline `run`: its k-th trial runs
      the pipeline on the input at the clamped index k (the counter reads k, as
      `DispenseRun` shows). An empty list has no trials. */
  function TrialOp(run: (nat, string) -> Call<int>, inputs: seq<string>): nat -> Call<int> {
    if |inputs| == 0 then (k: nat) => Threw
    else (k: nat) => run(k, inputs[Clamp(k, 0, |inputs| - 1)])
  }

  /** The first n calls of pipeline p, on the first n inputs. */
  function Invocations(p: Pipeline, inputs: seq<string>, n: nat): (t: seq<Invocation>)
    requires n <= |inputs|
    ensures |t| == n && forall k :: 0 <= k < n ==> t[k] == Invocation(p, inputs[k])
  {
    if n == 0 then [] else Invocations(p, inputs, n - 1) + [Invocation(p, inputs[n - 1])]
  }

  /** The k-th trial of a run over all inputs runs on the k-th input. */
  lemma TrialInput(run: (nat, string) -> Call<int>, inputs: seq<string>, k: nat)
    requires k < |inputs|
    ensures TrialOp(run, inputs)(k) == run(k, inputs[k])
  {
  }

  // ---------------------------------------------------------------------------
  // The A/B run
  // ---------------------------------------------------------------------------

  /** The argument checks pass: a name that is not blank, and inputs and both pipelines
      present. */
  predicate ArgumentsValid(name: Option<string>, inputs: Option<seq<string>>,
                           chain: Option<(nat, string) -> Call<int>>, graph: Option<(nat, string) -> Call<int>>)
  {
    name.Some? && !IsBlank(name.value) && inputs.Some? && chain.Some? && graph.Some?
  }

  /** The argument checks, in order: `ArgumentException.ThrowIfNullOrWhiteSpace(name)`
      (ArgumentNullException for a missing name), then `ThrowIfNull` on the inputs and on
      each pipeline. */
  function CheckArguments(name: Option<string>, inputs: Option<seq<string>>,
                          chain: Option<(nat, string) -> Call<int>>, graph: Option<(nat, string) -> Call<int>>)
    : (e: Option<Error>)
    ensures e.None? <==> ArgumentsValid(name, inputs, chain, graph)
    ensures name.None? ==> e == Some(ArgumentNull("name"))
    ensures name.Some? && IsBlank(name.value) ==> e == Some(ArgumentBlank("name"))
    ensures name.Some? && !IsBlank(name.value) && inputs.None? ==> e == Some(ArgumentNull("inputs"))
    ensures name.Some? && !IsBlank(name.value) && inputs.Some? && chain.None? ==> e == Some(ArgumentNull("runChainPerInput"))
    ensures name.Some? && !IsBlank(name.value) && inputs.Some? && chain.Some? && graph.None? ==>
      e == Some(ArgumentNull("runGraphPerInput"))
  {
    if name.None? then Some(ArgumentNull("name"))
    else if IsBlank(name.value) then Some(ArgumentBlank("name"))
    else if inputs.None? then Some(ArgumentNull("inputs"))
    else if chain.None? then Some(ArgumentNull("runChainPerInput"))
    else if graph.None? then Some(ArgumentNull("runGraphPerInput"))
    else None
  }

  /** The two runs, once the arguments are checked: the chain run to completion, then the
      graph run, both over all inputs, both writing to the same directory. */
  method MeasureBoth(name: string, xs: seq<string>, chain: (nat, string) -> Call<int>, graph: (nat, string) -> Call<int>,
                     resultsDirectory: Option<string>, defaultDirectory: string)
    returns (r: Result<(Summary, Summary)>, trace: seq<Invocation>,
             chainArtifacts: Option<Artifacts>, graphArtifacts: Option<Artifacts>)
    ensures |xs| == 0 ==> r == Err(ArgumentOutOfRange("iterations")) && trace == []
    ensures r.Ok? ==>
      (r.value.0.name == name + "_chain_latency" && r.value.1.name == name + "_graph_latency"
       && r.value.0.iterations == |xs| == r.value.1.iterations
       && trace == Invocations(ChainPipeline, xs, |xs|) + Invocations(GraphPipeline, xs, |xs|)
       && chainArtifacts == Some(ArtifactsFor(name + "_chain_latency", resultsDirectory, defaultDirectory))
       && graphArtifacts == Some(ArtifactsFor(name + "_graph_latency", resultsDirectory, defaultDirectory)))
    ensures |xs| > 0 ==> (r.Ok? <==> AllReturn(TrialOp(chain, xs), |xs|) && AllReturn(TrialOp(graph, xs), |xs|))
    ensures |xs| > 0 && !AllReturn(TrialOp(chain, xs), |xs|) ==>
      (r == Err(OperationFaulted) && chainArtifacts.None? && graphArtifacts.None?
       && exists c :: 1 <= c <= |xs| && trace == Invocations(ChainPipeline, xs, c) && chain(c - 1, xs[c - 1]).Threw?)
    ensures |xs| > 0 && AllReturn(TrialOp(chain, xs), |xs|) && !AllReturn(TrialOp(graph, xs), |xs|) ==>
      (r == Err(OperationFaulted) && chainArtifacts.Some? && graphArtifacts.None?
       && exists c :: 1 <= c <= |xs|
                     && trace == Invocations(ChainPipeline, xs, |xs|) + Invocations(GraphPipeline, xs, c)
                     && graph(c - 1, xs[c - 1]).Threw?)
  {
    graphArtifacts := None;
    var chainResult, chainCalls, _, chainWritten :=
      MeasureMany(name + "_chain_latency", |xs|, TrialOp(chain, xs), resultsDirectory, defaultDirectory);
    trace := Invocations(ChainPipeline, xs, chainCalls);
    chainArtifacts := chainWritten;
    if chainResult.Err? {
      return Err(chainResult.error), trace, chainArtifacts, graphArtifacts;
    }
    var graphResult, graphCalls, _, graphWritten :=
      MeasureMany(name + "_graph_latency", |xs|, TrialOp(graph, xs), resultsDirectory, defaultDirectory);
    trace := trace + Invocations(GraphPipeline, xs, graphCalls);
    if graphResult.Err? {
      return Err(graphResult.error), trace, chainArtifacts, graphArtifacts;
    }
    graphArtifacts := graphWritten;
    r := Ok((chainResult.value, graphResult.value));
  }

  /** `RunLatencyABAsync`: the argument checks, then the two runs. trace lists the
      pipeline calls made, in order; chainArtifacts and graphArtifacts say where each run
      wrote its summary. */
  method RunLatencyAB(name: Option<string>, inputs: Option<seq<string>>,
                      chain: Option<(nat, string) -> Call<int>>, graph: Option<(nat, string) -> Call<int>>,
                      resultsDirectory: Option<string>, defaultDirectory: string)
    returns (r: Result<(Summary, Summary)>, trace: seq<Invocation>,
             chainArtifacts: Option<Artifacts>, graphArtifacts: Option<Artifacts>)
    ensures CheckArguments(name, inputs, chain, graph).Some? ==>
      r == Err(CheckArguments(name, inputs, chain, graph).value) && trace == []
      && chainArtifacts.None? && graphArtifacts.None?
    ensures ArgumentsValid(name, inputs, chain, graph) && |inputs.value| == 0 ==>
      r == Err(ArgumentOutOfRange("iterations")) && trace == []
    ensures r.Ok? ==>
      (ArgumentsValid(name, inputs, chain, graph)
       && r.value.0.name == name.value + "_chain_latency" && r.value.1.name == name.value + "_graph_latency"
       && r.value.0.iterations == |inputs.value| == r.value.1.iterations
       && trace == Invocations(ChainPipeline, inputs.value, |inputs.value|) + Invocations(GraphPipeline, inputs.value, |inputs.value|)
       && chainArtifacts == Some(ArtifactsFor(name.value + "_chain_latency", resultsDirectory, defaultDirectory))
       && graphArtifacts == Some(ArtifactsFor(name.value + "_graph_latency", resultsDirectory, defaultDirectory)))
    ensures ArgumentsValid(name, inputs, chain, graph) && |inputs.value| > 0 ==>
      (r.Ok? <==> AllReturn(TrialOp(chain.value, inputs.value), |inputs.value|)
                  && AllReturn(TrialOp(graph.value, inputs.value), |inputs.value|))
  {
    var e := CheckArguments(name, inputs, chain, graph);
    if e.Some? {
      return Err(e.value), [], None, None;
    }
    r, trace, chainArtifacts, graphArtifacts :=
      MeasureBoth(name.value, inputs.value, chain.value, graph.value, resultsDirectory, defaultDirectory);
  }
}
