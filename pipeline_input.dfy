/** The whole macro input, `stage: { ... }` repeated (`PipelineInput`,
    gears-pipeline/src/lib.rs). */
module PipelineInputs {
  import opened Wrappers
  import opened Tokens
  import opened Stages
  import opened ModuleInputs

  const VertexAliases: set<string> := {"vs", "vertex", "vert"}
  const FragmentAliases: set<string> := {"fs", "fragment", "frag"}

  /** The stage an identifier names, if any. */
  function StageOf(alias: string): Option<ModuleType> {
    if alias in VertexAliases then Some(Vertex)
    else if alias in FragmentAliases then Some(Fragment)
    else None
  }

  /** The outcome of parsing the rest `ts` of the input, `mods` being the
      stages already read. */
  function PipelineFrom(ts: seq<Token>, mods: map<ModuleType, ModuleInput>, env: Env)
    : Result<map<ModuleType, ModuleInput>, ParseError>
    decreases |ts|
  {
    if ts == [] then Ok(mods)
    else if !ts[0].Ident? then Err(ExpectedIdent)
    else if !StartsWithPunct(ts[1..], ':') then Err(ExpectedToken(':'))
    else if |ts| < 3 || !ts[2].Group? then Err(ExpectedGroup)
    else
      match StageOf(ts[0].name)
      case None => Err(UnknownShaderType(ts[0].name))
      case Some(t) =>
        if t in mods then Err(DuplicateShaderModule)
        else
          match ModuleFrom(ts[2].inner, Start, env)
          case Err(e) => Err(e)
          case Ok(m) => PipelineFrom(ts[3..], mods[t := m], env)
  }

  /** `PipelineInput::parse`: the loop over stage declarations, inserting
      into the `modules` map. */
  method ParsePipeline(ts: seq<Token>, env: Env) returns (r: Result<map<ModuleType, ModuleInput>, ParseError>)
    ensures r == PipelineFrom(ts, map[], env)
  {
    var input := ts;
    var modules: map<ModuleType, ModuleInput> := map[];
    while input != []
      invariant PipelineFrom(ts, map[], env) == PipelineFrom(input, modules, env)
      decreases |input|
    {
      if !input[0].Ident? {
        return Err(ExpectedIdent);
      }
      var shader := input[0].name;
      ghost var here := input;
      input := input[1..];
      if !StartsWithPunct(input, ':') {
        return Err(ExpectedToken(':'));
      }
      input := input[1..];
      if input == [] || !input[0].Group? {
        return Err(ExpectedGroup);
      }
      var groupTokens := input[0].inner;
      input := input[1..];
      var moduleType: ModuleType;
      if shader in VertexAliases {
        moduleType := Vertex;
      } else if shader in FragmentAliases {
        moduleType := Fragment;
      } else {
        return Err(UnknownShaderType(shader));
      }
      if moduleType in modules {
        return Err(DuplicateShaderModule);
      }
      var parsed := ParseModule(groupTokens, env);
      if parsed.Err? {
        return Err(parsed.error);
      }
      modules := modules[moduleType := parsed.value];
      assert input == here[3..];
    }
    return Ok(modules);
  }

  // ---- properties ----------------------------------------------------------

  /** One stage declaration `alias: { body }`. */
  datatype StageDecl = StageDecl(alias: string, body: seq<Token>)

  function StagesTokens(ds: seq<StageDecl>): seq<Token>
    decreases |ds|
  {
    if ds == [] then []
    else [Ident(ds[0].alias), Punct(':'), Group(Brace, ds[0].body)] + StagesTokens(ds[1..])
  }

  predicate AllKnown(ds: seq<StageDecl>) {
    forall i :: 0 <= i < |ds| ==> StageOf(ds[i].alias).Some?
  }

  predicate Distinct(ds: seq<StageDecl>) {
    forall i, j :: 0 <= i < j < |ds| ==> StageOf(ds[i].alias) != StageOf(ds[j].alias)
  }

  predicate NoneIn(ds: seq<StageDecl>, mods: map<ModuleType, ModuleInput>) {
    forall i :: 0 <= i < |ds| && StageOf(ds[i].alias).Some? ==> StageOf(ds[i].alias).value !in mods
  }

  predicate BodiesParse(ds: seq<StageDecl>, env: Env) {
    forall i :: 0 <= i < |ds| ==> ModuleFrom(ds[i].body, Start, env).Ok?
  }

  lemma StagesTokensCons(ds: seq<StageDecl>)
    requires ds != []
    ensures StagesTokens(ds)[3..] == StagesTokens(ds[1..])
    ensures StagesTokens(ds)[0] == Ident(ds[0].alias)
    ensures StagesTokens(ds)[1..][0] == Punct(':')
    ensures StagesTokens(ds)[2] == Group(Brace, ds[0].body)
  {
  }

  /** A list of stage declarations is accepted exactly when every alias
      names a stage, no stage is declared twice (nor was already present),
      and every body parses. */
  lemma {:induction false} StagesAccepted(ds: seq<StageDecl>, mods: map<ModuleType, ModuleInput>, env: Env)
    ensures PipelineFrom(StagesTokens(ds), mods, env).Ok?
        <==> AllKnown(ds) && Distinct(ds) && NoneIn(ds, mods) && BodiesParse(ds, env)
    decreases |ds|
  {
    if ds != [] {
      StagesTokensCons(ds);
      var rest := ds[1..];
      assert forall i :: 0 <= i < |rest| ==> rest[i] == ds[i + 1];
      match StageOf(ds[0].alias)
      case None =>
      case Some(t) =>
        if t !in mods && ModuleFrom(ds[0].body, Start, env).Ok? {
          var m := ModuleFrom(ds[0].body, Start, env).value;
          StagesAccepted(rest, mods[t := m], env);
          if AllKnown(ds) && Distinct(ds) && NoneIn(ds, mods) && BodiesParse(ds, env) {
            assert NoneIn(rest, mods[t := m]) by {
              forall i | 0 <= i < |rest| && StageOf(rest[i].alias).Some?
                ensures StageOf(rest[i].alias).value !in mods[t := m]
              {
                assert StageOf(ds[0].alias) != StageOf(ds[i + 1].alias);
              }
            }
          }
          if AllKnown(rest) && Distinct(rest) && NoneIn(rest, mods[t := m]) && BodiesParse(rest, env) {
            assert Distinct(ds) by {
              forall i, j | 0 <= i < j < |ds|
                ensures StageOf(ds[i].alias) != StageOf(ds[j].alias)
              {
                if i > 0 {
                  assert StageOf(rest[i - 1].alias) != StageOf(rest[j - 1].alias);
                } else {
                  assert StageOf(rest[j - 1].alias).value !in mods[t := m];
                }
              }
            }
          }
        }
    }
  }

  /** The stages the declarations name. */
  function DeclaredStages(ds: seq<StageDecl>): set<ModuleType> {
    set i | 0 <= i < |ds| && StageOf(ds[i].alias).Some? :: StageOf(ds[i].alias).value
  }

  lemma DeclaredStagesCons(ds: seq<StageDecl>)
    requires ds != [] && StageOf(ds[0].alias).Some?
    ensures DeclaredStages(ds) == {StageOf(ds[0].alias).value} + DeclaredStages(ds[1..])
  {
    var rest := ds[1..];
    var t := StageOf(ds[0].alias).value;
    forall x | x in DeclaredStages(ds) ensures x in {t} + DeclaredStages(rest) {
      var i :| 0 <= i < |ds| && StageOf(ds[i].alias).Some? && StageOf(ds[i].alias).value == x;
      if i > 0 {
        assert rest[i - 1] == ds[i];
      }
    }
    forall x | x in DeclaredStages(rest) ensures x in DeclaredStages(ds) {
      var i :| 0 <= i < |rest| && StageOf(rest[i].alias).Some? && StageOf(rest[i].alias).value == x;
      assert rest[i] == ds[i + 1];
    }
  }

  /** When accepted, the map holds one entry per declaration, keyed by its
      stage, holding that declaration's parsed body. */
  lemma {:induction false} StagesContents(ds: seq<StageDecl>, mods: map<ModuleType, ModuleInput>, env: Env)
    requires PipelineFrom(StagesTokens(ds), mods, env).Ok?
    ensures AllKnown(ds) && BodiesParse(ds, env)
    ensures PipelineFrom(StagesTokens(ds), mods, env).value.Keys == mods.Keys + DeclaredStages(ds)
    ensures forall i :: 0 <= i < |ds| ==>
              PipelineFrom(StagesTokens(ds), mods, env).value[StageOf(ds[i].alias).value]
              == ModuleFrom(ds[i].body, Start, env).value
    ensures forall t :: t in mods ==> PipelineFrom(StagesTokens(ds), mods, env).value[t] == mods[t]
    decreases |ds|
  {
    StagesAccepted(ds, mods, env);
    if ds != [] {
      StagesTokensCons(ds);
      var rest := ds[1..];
      var t := StageOf(ds[0].alias).value;
      var m := ModuleFrom(ds[0].body, Start, env).value;
      StagesContents(rest, mods[t := m], env);
      var full := PipelineFrom(StagesTokens(ds), mods, env).value;
      assert full == PipelineFrom(StagesTokens(rest), mods[t := m], env).value;
      DeclaredStagesCons(ds);
      forall i | 0 <= i < |ds|
        ensures full[StageOf(ds[i].alias).value] == ModuleFrom(ds[i].body, Start, env).value
      {
        if i > 0 {
          assert rest[i - 1] == ds[i];
        }
      }
    }
  }

  /** The aliases `v` and `f` are not stage names: declaring a stage with
      either is an unknown-stage error. */
  lemma ShortAliasesRejected(alias: string, body: seq<Token>, rest: seq<Token>, mods: map<ModuleType, ModuleInput>, env: Env)
    requires alias == "v" || alias == "f"
    ensures PipelineFrom([Ident(alias), Punct(':'), Group(Brace, body)] + rest, mods, env)
         == Err(UnknownShaderType(alias))
  {
    var ts := [Ident(alias), Punct(':'), Group(Brace, body)] + rest;
    assert ts[1..][0] == Punct(':');
  }
}
