/**
  Idempotent metric registration (`get_or_create_metric`) over the process-wide
  prometheus registry, which maps metric names to collectors. Constructing a
  metric registers it as a side effect; that registration is an explicit step
  here (`Construct`), and it raises when the name is already taken.
*/
module Metrics {
  import opened Wrappers

  datatype MetricKind = Counter | Histogram

  /** A constructed metric; `handle` is its identity, distinct for every construction. */
  datatype Collector = Collector(kind: MetricKind, name: string, documentation: string, handle: nat)

  /** `REGISTRY._names_to_collectors`, with the number of collectors constructed so far. */
  datatype RegistryState = RegistryState(namesToCollectors: map<string, Collector>, constructed: nat)

  /**
    Registry invariant: every collector is filed under its own name, carries a
    handle already handed out, and no two names share a handle.
  */
  predicate Valid(s: RegistryState)
  {
    && (forall n :: n in s.namesToCollectors ==>
          s.namesToCollectors[n].name == n && s.namesToCollectors[n].handle < s.constructed)
    && (forall a, b :: a in s.namesToCollectors && b in s.namesToCollectors && a != b ==>
          s.namesToCollectors[a].handle != s.namesToCollectors[b].handle)
  }

  /**
    `metric_type(name, documentation)`: builds a collector with a new handle and
    registers it under `name`; registration raises when the name is taken and
    then the registry is left as it was.
  */
  function Construct(s: RegistryState, kind: MetricKind, name: string, documentation: string)
    : (r: Result<(RegistryState, Collector)>)
    ensures r.Failure? <==> name in s.namesToCollectors
    ensures r.Success? ==>
      && r.value.1.kind == kind && r.value.1.name == name && r.value.1.documentation == documentation
      && r.value.0.namesToCollectors == s.namesToCollectors[name := r.value.1]
    ensures r.Success? && Valid(s) ==>
      Valid(r.value.0) && forall n :: n in s.namesToCollectors ==> s.namesToCollectors[n].handle != r.value.1.handle
  {
    if name in s.namesToCollectors then Failure("Duplicated timeseries in CollectorRegistry: " + name)
    else
      var c := Collector(kind, name, documentation, s.constructed);
      Success((RegistryState(s.namesToCollectors[name := c], s.constructed + 1), c))
  }

  /** `get_or_create_metric`: the registered collector if `name` is taken, else a newly constructed one. */
  function GetOrCreate(s: RegistryState, kind: MetricKind, name: string, documentation: string)
    : (r: (RegistryState, Collector))
    ensures name in r.0.namesToCollectors && r.0.namesToCollectors[name] == r.1
    ensures name in s.namesToCollectors ==> r.0 == s && r.1 == s.namesToCollectors[name]
    ensures name !in s.namesToCollectors ==>
      && r.1.kind == kind && r.1.documentation == documentation
      && r.0.namesToCollectors.Keys == s.namesToCollectors.Keys + {name}
      && forall n :: n in s.namesToCollectors ==> r.0.namesToCollectors[n] == s.namesToCollectors[n]
    ensures Valid(s) ==> Valid(r.0)
  {
    if name in s.namesToCollectors then (s, s.namesToCollectors[name])
    else Construct(s, kind, name, documentation).value
  }

  /**
    Asking twice for the same name yields the same collector and leaves the
    registry as the first call left it, whatever kind or documentation the
    second call passes.
  */
  lemma GetOrCreateIdempotent(s: RegistryState, name: string,
                              kind1: MetricKind, doc1: string, kind2: MetricKind, doc2: string)
    ensures GetOrCreate(GetOrCreate(s, kind1, name, doc1).0, kind2, name, doc2) == GetOrCreate(s, kind1, name, doc1)
  {
  }

  /** In a valid registry, a collector created for a new name is distinct from every registered one. */
  lemma NewCollectorIsFresh(s: RegistryState, kind: MetricKind, name: string, documentation: string)
    requires Valid(s) && name !in s.namesToCollectors
    ensures forall n :: n in s.namesToCollectors ==>
      s.namesToCollectors[n] != GetOrCreate(s, kind, name, documentation).1
  {
    var c := GetOrCreate(s, kind, name, documentation).1;
    forall n | n in s.namesToCollectors
      ensures s.namesToCollectors[n] != c
    {
      assert s.namesToCollectors[n].handle < s.constructed;
    }
  }

  /** One `get_or_create_metric(kind, name, documentation)` call of the script. */
  datatype Declaration = Declaration(kind: MetricKind, name: string, documentation: string)

  /** The metric declarations the script runs on every execution, in order. */
  const ScriptDeclarations: seq<Declaration> := [
    Declaration(Counter, "total_queries", "Total number of user queries"),
    Declaration(Counter, "total_uploads", "Total number of document uploads"),
    Declaration(Counter, "upload_failures_total", "Total failed document uploads"),
    Declaration(Counter, "query_failures_total", "Total failed user queries"),
    Declaration(Histogram, "upload_latency_seconds", "Time taken to upload documents"),
    Declaration(Histogram, "query_latency_seconds", "Time taken to respond to a query")
  ]

  /** The names a list of declarations asks for. */
  function DeclaredNames(decls: seq<Declaration>): (names: set<string>)
    ensures forall i :: 0 <= i < |decls| ==> decls[i].name in names
  {
    if decls == [] then {} else {decls[0].name} + DeclaredNames(decls[1..])
  }

  /**
    Running a list of declarations in order. Afterwards every declared name is
    registered and bound to the collector returned for it, names registered
    before keep their collectors, and no other name is registered.
  */
  function DeclareAll(s: RegistryState, decls: seq<Declaration>): (r: (RegistryState, seq<Collector>))
    ensures |r.1| == |decls|
    ensures forall i :: 0 <= i < |decls| ==>
      decls[i].name in r.0.namesToCollectors && r.0.namesToCollectors[decls[i].name] == r.1[i]
    ensures forall n :: n in s.namesToCollectors ==>
      n in r.0.namesToCollectors && r.0.namesToCollectors[n] == s.namesToCollectors[n]
    ensures r.0.namesToCollectors.Keys == s.namesToCollectors.Keys + DeclaredNames(decls)
    ensures Valid(s) ==> Valid(r.0)
    decreases |decls|
  {
    if decls == [] then (s, [])
    else
      var d := decls[0];
      var (s1, c) := GetOrCreate(s, d.kind, d.name, d.documentation);
      var (s2, cs) := DeclareAll(s1, decls[1..]);
      (s2, [c] + cs)
  }

  /** Declarations whose names are all registered change nothing. */
  lemma {:induction false} DeclareRegisteredIsNoop(s: RegistryState, decls: seq<Declaration>)
    requires forall i :: 0 <= i < |decls| ==> decls[i].name in s.namesToCollectors
    ensures DeclareAll(s, decls).0 == s
  {
    if decls != [] {
      DeclareRegisteredIsNoop(s, decls[1..]);
    }
  }

  /**
    Re-executing the declarations (a Streamlit re-render runs the script
    again) rebinds every metric name to the collector the first execution
    returned and registers nothing new.
  */
  lemma RerunKeepsMetrics(s: RegistryState, decls: seq<Declaration>)
    ensures DeclareAll(DeclareAll(s, decls).0, decls) == DeclareAll(s, decls)
  {
    var (s1, cs1) := DeclareAll(s, decls);
    DeclareRegisteredIsNoop(s1, decls);
    var cs2 := DeclareAll(s1, decls).1;
    assert forall i :: 0 <= i < |decls| ==> cs2[i] == s1.namesToCollectors[decls[i].name] == cs1[i];
    assert cs2 == cs1;
  }

  /** On a valid registry, declarations with distinct names yield distinct collectors. */
  lemma DeclaredMetricsDistinct(s: RegistryState, decls: seq<Declaration>)
    requires Valid(s)
    requires forall i, j :: 0 <= i < j < |decls| ==> decls[i].name != decls[j].name
    ensures var cs := DeclareAll(s, decls).1;
      forall i, j :: 0 <= i < j < |decls| ==> cs[i].handle != cs[j].handle
  {
  }

  /** The script's six metric names are distinct, so its six metrics are six distinct collectors. */
  lemma ScriptMetricsDistinct(s: RegistryState)
    requires Valid(s)
    ensures var cs := DeclareAll(s, ScriptDeclarations).1;
      forall i, j :: 0 <= i < j < 6 ==> cs[i].handle != cs[j].handle
  {
    DeclaredMetricsDistinct(s, ScriptDeclarations);
  }

  /** The process-wide registry, updated in place. */
  class Registry {
    var namesToCollectors: map<string, Collector>
    var constructed: nat

    function State(): RegistryState
      reads this
    {
      RegistryState(namesToCollectors, constructed)
    }

    /**
      The registry as the import of prometheus_client leaves it: already
      holding the library's default collectors.
    */
    constructor (preregistered: RegistryState)
      requires Valid(preregistered)
      ensures State() == preregistered && Valid(State())
    {
      namesToCollectors, constructed := preregistered.namesToCollectors, preregistered.constructed;
    }

    /** The metric constructor with its registration side effect. */
    method NewMetric(kind: MetricKind, name: string, documentation: string) returns (r: Result<Collector>)
      modifies this
      ensures var spec := Construct(old(State()), kind, name, documentation);
        && (spec.Failure? ==> r.Failure? && State() == old(State()))
        && (spec.Success? ==> r == Success(spec.value.1) && State() == spec.value.0)
    {
      if name in namesToCollectors {
        r := Failure("Duplicated timeseries in CollectorRegistry: " + name);
        return;
      }
      var c := Collector(kind, name, documentation, constructed);
      constructed := constructed + 1;
      namesToCollectors := namesToCollectors[name := c];
      r := Success(c);
    }

    /** `get_or_create_metric` on this registry. */
    method GetOrCreateMetric(kind: MetricKind, name: string, documentation: string) returns (m: Collector)
      modifies this
      ensures (State(), m) == GetOrCreate(old(State()), kind, name, documentation)
    {
      if name in namesToCollectors {
        return namesToCollectors[name];
      }
      var r := NewMetric(kind, name, documentation);
      m := r.value;
    }
  }
}
