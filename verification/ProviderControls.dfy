/**
 Footer controls of a session that can switch between providers. Every selection is turned
 into a provider envelope, which the runtime merges over the session's own: keys are never
 removed, and the identity of the session's envelope never changes.

 Provider catalogs are parameters. A key such as `zai:model` is Of("zai", "model").
 */
module ProviderControls {

  import opened Common

  datatype Key = ActiveProvider | Of(provider: string, name: string)

  /** A JSON value; the controls only ever read strings. */
  datatype Value = Str(s: string) | Other(json: string)

  type Values = map<Key, Value>

  datatype Configuration = Configuration(providerId: string, values: Values)

  datatype Model = Model(provider: string, id: string)

  datatype Applied = Applied(configuration: Configuration, model: Option<Model>)

  /** What the provider adapters say, and the models the composition advertises. */
  datatype Catalog = Catalog(
    openaiDefaults: Values, openaiDefaultModel: string,
    openaiAdvertised: set<string>, openaiKnown: set<string>, openaiLevels: string -> set<string>,
    xaiDefaults: Values, xaiDefaultModel: string,
    xaiAdvertised: set<string>, xaiLevels: string -> set<string>, xaiDefaultEffort: string -> Option<string>,
    zaiDefaults: Values, zaiSupports: (string, string) -> bool,
    lmModels: set<string>, lmFirst: string,
    validModelId: string -> bool)

  /** Default envelopes hold keys of their own provider only. */
  ghost predicate WellFormed(c: Catalog) {
    && (forall k :: k in c.openaiDefaults ==> k.Of? && k.provider == "openai")
    && (forall k :: k in c.xaiDefaults ==> k.Of? && k.provider == "xai")
    && (forall k :: k in c.zaiDefaults ==> k.Of? && k.provider == "zai")
    && ReadOr(c.xaiDefaults, Of("xai", "model"), c.xaiDefaultModel) == c.xaiDefaultModel
  }

  const MOA_PICKER_VALUE := "__moa__"
  const PROVIDER_CONTROL := "provider"

  const OPENAI_KEPT := {"model", "reasoning-mode"}
  const XAI_KEPT := {"model", "reasoning-effort", "region", "transport", "native-compaction",
    "hosted-web-search", "hosted-x-search", "hosted-code-execution", "hosted-attachment-search",
    "hosted-collections-search", "hosted-remote-mcp", "file-ids", "file-urls", "collection-ids",
    "max-results", "server-url", "server-label", "server-description", "allowed-tools"}
  const ZAI_KEPT := {"model", "endpoint-plan", "reasoning-mode", "generation-profile",
    "auxiliary-model", "mixture-mode"}

  function Read(values: Values, key: Key): Option<string> {
    if key in values && values[key].Str? then Some(values[key].s) else None
  }

  function ReadOr(values: Values, key: Key, default: string): string {
    var r := Read(values, key);
    if r.Some? then r.value else default
  }

  /** The overlay key after a switch, else the identity of the envelope. */
  function Acting(c: Configuration): string {
    ReadOr(c.values, ActiveProvider, c.providerId)
  }

  function QualifiedModel(c: Catalog, provider: string, id: string): Option<Model> {
    if c.validModelId(id) then Some(Model(provider, id)) else None
  }

  // ------------------------------------------------------------------ one selection

  function ApplyGlm(c: Catalog, cfg: Configuration, option: string, value: string): Option<Configuration> {
    var v := cfg.values;
    match option
    case "model" =>
      if value == MOA_PICKER_VALUE then
        Some(cfg.(values := v[Of("zai", "mixture-mode") := Str("enabled")]))
      else
        var next := v[Of("zai", "mixture-mode") := Str("off")][Of("zai", "model") := Str(value)];
        var reasoning := ReadOr(v, Of("zai", "reasoning-mode"), "enabled");
        if c.zaiSupports(value, reasoning) then Some(cfg.(values := next))
        else
          var fallback := if value == "glm-5.3-flash" then "max" else "enabled";
          Some(cfg.(values := next[Of("zai", "reasoning-mode") := Str(fallback)]))
    case "thought_level" => Some(cfg.(values := v[Of("zai", "reasoning-mode") := Str(value)]))
    case "api_endpoint" => Some(cfg.(values := v[Of("zai", "endpoint-plan") := Str(value)]))
    case "generation_profile" => Some(cfg.(values := v[Of("zai", "generation-profile") := Str(value)]))
    case "auxiliary_model" => Some(cfg.(values := v[Of("zai", "auxiliary-model") := Str(value)]))
    case "mixture_mode" => Some(cfg.(values := v[Of("zai", "mixture-mode") := Str(value)]))
    case _ => None
  }

  /** The model override carries the identity of the envelope, not the acting provider. */
  function GlmModel(c: Catalog, cfg: Configuration): Option<Model> {
    var model := Read(cfg.values, Of("zai", "model"));
    var legacy := Read(cfg.values, Of("zai", "model-id"));
    if model.Some? then QualifiedModel(c, cfg.providerId, model.value)
    else if legacy.Some? then QualifiedModel(c, cfg.providerId, legacy.value)
    else None
  }

  function ApplyZai(c: Catalog, cfg: Configuration, option: string, value: string): Option<Applied> {
    var next := ApplyGlm(c, cfg, option, value);
    if next.None? then None else Some(Applied(next.value, GlmModel(c, next.value)))
  }

  function ApplyOpenai(c: Catalog, cfg: Configuration, option: string, value: string): Option<Applied> {
    if option == "model" && value !in c.openaiAdvertised then None
    else if option != "model" && option != "thought_level" then None
    else
      var name := if option == "model" then "model" else "reasoning-mode";
      var next := cfg.values[Of("openai", name) := Str(value)];
      var model := ReadOr(next, Of("openai", "model"), c.openaiDefaultModel);
      var effort := ReadOr(next, Of("openai", "reasoning-mode"), "medium");
      if !c.validModelId(model) then None
      else if effort in c.openaiLevels(model) then
        Some(Applied(cfg.(values := next), Some(Model("openai", model))))
      else if option == "model" && model in c.openaiKnown then
        Some(Applied(cfg.(values := next[Of("openai", "reasoning-mode") := Str("high")]), Some(Model("openai", model))))
      else None
  }

  function XaiName(option: string): Option<string> {
    match option
    case "model" => Some("model")
    case "thought_level" => Some("reasoning-effort")
    case "api_endpoint" => Some("region")
    case "transport" => Some("transport")
    case "native_compaction" => Some("native-compaction")
    case "xai_web" => Some("hosted-web-search")
    case "xai_x" => Some("hosted-x-search")
    case "xai_code" => Some("hosted-code-execution")
    case "xai_attachments" => Some("hosted-attachment-search")
    case "xai_collections" => Some("hosted-collections-search")
    case "xai_remote_mcp" => Some("hosted-remote-mcp")
    case _ => None
  }

  function ApplyXai(c: Catalog, cfg: Configuration, option: string, value: string): Option<Applied> {
    var name := XaiName(option);
    if name.None? || (option == "model" && value !in c.xaiAdvertised) then None
    else
      var next := cfg.values[Of("xai", name.value) := Str(value)];
      var model := ReadOr(next, Of("xai", "model"), c.xaiDefaultModel);
      var effort := ReadOr(next, Of("xai", "reasoning-effort"), "high");
      var fallback := c.xaiDefaultEffort(model);
      if !c.validModelId(model) then None
      else if effort in c.xaiLevels(model) then
        Some(Applied(cfg.(values := next), Some(Model("xai", model))))
      else if fallback.Some? then
        Some(Applied(cfg.(values := next[Of("xai", "reasoning-effort") := Str(fallback.value)]), Some(Model("xai", model))))
      else None
  }

  function ApplyLmStudio(c: Catalog, cfg: Configuration, option: string, value: string): Option<Applied> {
    if option == "model" && value in c.lmModels && c.validModelId(value) then
      Some(Applied(
        cfg.(values := cfg.values[Of("lmstudio", "model") := Str(value)][ActiveProvider := Str("lmstudio")]),
        Some(Model("lmstudio", value))))
    else None
  }

  /** Settings of one provider carried over from the session into a fresh default envelope. */
  function Carried(from: Values, provider: string, names: set<string>): Values {
    map k | k in from && k.Of? && k.provider == provider && k.name in names :: from[k]
  }

  /** The envelope of the target provider, and the model the session will act with. */
  function ApplyProvider(c: Catalog, cfg: Configuration, target: string): Option<Applied> {
    match target
    case "openai" =>
      var next := (c.openaiDefaults + Carried(cfg.values, "openai", OPENAI_KEPT))[ActiveProvider := Str("openai")];
      var model := ReadOr(next, Of("openai", "model"), c.openaiDefaultModel);
      if c.validModelId(model) then Some(Applied(Configuration("openai", next), Some(Model("openai", model)))) else None
    case "xai" =>
      var next := (c.xaiDefaults + Carried(cfg.values, "xai", XAI_KEPT))[ActiveProvider := Str("xai")];
      if c.validModelId(c.xaiDefaultModel) then
        Some(Applied(Configuration("xai", next), Some(Model("xai", c.xaiDefaultModel)))) else None
    case "zai" =>
      var next := (c.zaiDefaults + Carried(cfg.values, "zai", ZAI_KEPT))[ActiveProvider := Str("zai")];
      var model := ReadOr(next, Of("zai", "model"), "glm-5.3");
      if c.validModelId(model) then Some(Applied(Configuration("zai", next), Some(Model("zai", model)))) else None
    case "lmstudio" =>
      if c.validModelId("local-model") then
        Some(Applied(Configuration("lmstudio", map[ActiveProvider := Str("lmstudio")]), Some(Model("lmstudio", "local-model"))))
      else None
    case _ => None
  }

  function Apply(c: Catalog, cfg: Configuration, option: string, value: string): Option<Applied> {
    if option == PROVIDER_CONTROL then ApplyProvider(c, cfg, value)
    else
      match Acting(cfg)
      case "openai" => ApplyOpenai(c, cfg, option, value)
      case "xai" => ApplyXai(c, cfg, option, value)
      case "zai" => ApplyZai(c, cfg, option, value)
      case "lmstudio" => ApplyLmStudio(c, cfg, option, value)
      case _ => None
  }

  // ---------------------------------------------------------------------- the session

  datatype Session = Session(configuration: Configuration, model: Model)

  /** A selection, and whether the session's own adapter accepts the merged envelope. */
  datatype Step = Step(option: string, value: string, accepted: bool)

  /** Overlay keys overwrite, all others stay; the envelope keeps its identity. */
  function Merge(current: Configuration, overlay: Values): Configuration {
    current.(values := current.values + overlay)
  }

  function Next(c: Catalog, s: Session, step: Step): Session {
    var applied := Apply(c, s.configuration, step.option, step.value);
    if applied.None? || !step.accepted then s
    else
      Session(Merge(s.configuration, applied.value.configuration.values),
              if applied.value.model.Some? then applied.value.model.value else s.model)
  }

  function After(c: Catalog, s: Session, steps: seq<Step>): Session
    decreases |steps|
  {
    if steps == [] then s else After(c, Next(c, s, steps[0]), steps[1..])
  }

  function Get(s: Session, k: Key): Option<Value> {
    if k in s.configuration.values then Some(s.configuration.values[k]) else None
  }

  predicate Switches(step: Step) {
    step.option == PROVIDER_CONTROL
  }

  /** The provider a step may write for: the target of a switch, else the acting one. */
  function Target(s: Session, step: Step): string {
    if Switches(step) then step.value else Acting(s.configuration)
  }

  lemma OverlayWrites(c: Catalog, cfg: Configuration, option: string, value: string, k: Key)
    requires WellFormed(c) && Apply(c, cfg, option, value).Some?
    requires k.Of? && k.provider != (if option == PROVIDER_CONTROL then value else Acting(cfg))
    ensures var v := Apply(c, cfg, option, value).value.configuration.values;
      k in v ==> k in cfg.values && v[k] == cfg.values[k]
  {
    if option != PROVIDER_CONTROL && Acting(cfg) == "zai" {
      GlmWrites(c, cfg, option, value, k);
    }
  }

  lemma GlmWrites(c: Catalog, cfg: Configuration, option: string, value: string, k: Key)
    requires ApplyGlm(c, cfg, option, value).Some? && k.Of? && k.provider != "zai"
    ensures var v := ApplyGlm(c, cfg, option, value).value.values;
      k in v ==> k in cfg.values && v[k] == cfg.values[k]
  {
  }

  /** Frame: a step writes only keys of the provider it is for, and the active-provider key. */
  lemma StepFrame(c: Catalog, s: Session, step: Step, k: Key)
    requires WellFormed(c) && k.Of? && k.provider != Target(s, step)
    ensures Get(Next(c, s, step), k) == Get(s, k)
  {
    if Apply(c, s.configuration, step.option, step.value).Some? {
      OverlayWrites(c, s.configuration, step.option, step.value, k);
    }
  }

  /** A step that is not a switch leaves the session acting for the same provider. */
  lemma ActingStable(c: Catalog, s: Session, step: Step)
    requires !Switches(step)
    ensures Acting(Next(c, s, step).configuration) == Acting(s.configuration)
  {
    var applied := Apply(c, s.configuration, step.option, step.value);
    if applied.Some? && Acting(s.configuration) == "zai" {
      GlmKeepsActing(c, s.configuration, step.option, step.value);
    }
  }

  lemma GlmKeepsActing(c: Catalog, cfg: Configuration, option: string, value: string)
    requires ApplyGlm(c, cfg, option, value).Some?
    ensures var v := ApplyGlm(c, cfg, option, value).value.values;
      (ActiveProvider in v <==> ActiveProvider in cfg.values)
      && (ActiveProvider in v ==> v[ActiveProvider] == cfg.values[ActiveProvider])
  {
  }

  /** Steps taken away from provider p: none switches to p, and while p acts there are only switches. */
  ghost predicate Away(c: Catalog, s: Session, steps: seq<Step>, p: string)
    decreases |steps|
  {
    steps != [] ==>
      && !(Switches(steps[0]) && steps[0].value == p)
      && (Acting(s.configuration) == p ==> Switches(steps[0]))
      && Away(c, Next(c, s, steps[0]), steps[1..], p)
  }

  lemma {:induction false} DetourKeeps(c: Catalog, s: Session, steps: seq<Step>, p: string, k: Key)
    requires WellFormed(c) && Away(c, s, steps, p) && k.Of? && k.provider == p
    ensures Get(After(c, s, steps), k) == Get(s, k)
    decreases |steps|
  {
    if steps != [] {
      StepFrame(c, s, steps[0], k);
      DetourKeeps(c, Next(c, s, steps[0]), steps[1..], p, k);
    }
  }

  /** The settings that a switch to p is meant to keep, by name. */
  predicate Preserved(p: string, k: Key) {
    && k.Of? && k.provider == p
    && match p
       case "openai" => k.name == "model" || k.name == "reasoning-mode"
       case "xai" =>
         || k.name in ["model", "reasoning-effort", "region", "transport", "native-compaction"]
         || k.name in ["hosted-web-search", "hosted-x-search", "hosted-code-execution", "hosted-attachment-search"]
         || k.name in ["hosted-collections-search", "hosted-remote-mcp", "file-ids", "file-urls", "collection-ids"]
         || k.name in ["max-results", "server-url", "server-label", "server-description", "allowed-tools"]
       case "zai" =>
         || k.name in ["model", "endpoint-plan", "reasoning-mode"]
         || k.name in ["generation-profile", "auxiliary-model", "mixture-mode"]
       case "lmstudio" => true
       case _ => false
  }

  lemma KeptIff(k: Key)
    requires k.Of?
    ensures Preserved("openai", k) <==> k.provider == "openai" && k.name in OPENAI_KEPT
    ensures Preserved("xai", k) <==> k.provider == "xai" && k.name in XAI_KEPT
    ensures Preserved("zai", k) <==> k.provider == "zai" && k.name in ZAI_KEPT
  {
  }

  function DefaultsOf(c: Catalog, p: string): Values {
    match p
    case "openai" => c.openaiDefaults
    case "xai" => c.xaiDefaults
    case "zai" => c.zaiDefaults
    case _ => map[]
  }

  /** After a switch to p, each setting of p is as stored if it is one to keep, or has no default; else it is the default. */
  lemma SwitchStores(c: Catalog, s: Session, p: string, k: Key)
    requires CanSwitch(c, s, p) && k.Of? && k.provider == p
    ensures Get(Next(c, s, SwitchTo(p)), k)
      == if Get(s, k).Some? && (Preserved(p, k) || k !in DefaultsOf(c, p)) then Get(s, k)
         else if k in DefaultsOf(c, p) then Some(DefaultsOf(c, p)[k])
         else None
  {
    KeptIff(k);
  }

  function SwitchTo(p: string): Step {
    Step(PROVIDER_CONTROL, p, true)
  }

  predicate CanSwitch(c: Catalog, s: Session, p: string) {
    ApplyProvider(c, s.configuration, p).Some?
  }

  lemma SwitchCarries(c: Catalog, s: Session, p: string, k: Key)
    requires CanSwitch(c, s, p) && Preserved(p, k) && Get(s, k).Some?
    ensures Get(Next(c, s, SwitchTo(p)), k) == Get(s, k)
  {
  }

  lemma SwitchActs(c: Catalog, s: Session, p: string)
    requires CanSwitch(c, s, p)
    ensures Acting(Next(c, s, SwitchTo(p)).configuration) == p
    ensures Next(c, s, SwitchTo(p)).model.provider == p
  {
  }

  /**
   Main result: after any detour through other providers, with any selections made there,
   switching back finds the preserved settings of p as they were left.
   */
  lemma DetourRoundTrip(c: Catalog, s: Session, steps: seq<Step>, p: string, k: Key)
    requires WellFormed(c) && Away(c, s, steps, p) && Preserved(p, k) && Get(s, k).Some?
    requires CanSwitch(c, After(c, s, steps), p)
    ensures var back := Next(c, After(c, s, steps), SwitchTo(p));
      Get(back, k) == Get(s, k) && Acting(back.configuration) == p
  {
    DetourKeeps(c, s, steps, p, k);
    SwitchCarries(c, After(c, s, steps), p, k);
    SwitchActs(c, After(c, s, steps), p);
  }

  /** What the next turn runs with: the session's values over the engine's, and its model's provider. */
  function TurnConfiguration(engine: Configuration, s: Session): Configuration {
    Configuration(s.model.provider, engine.values + s.configuration.values)
  }

  /** So the next turn is dispatched to p, with the settings chosen there before the detour. */
  lemma DetourReachesTurn(c: Catalog, engine: Configuration, s: Session, steps: seq<Step>, p: string, k: Key)
    requires WellFormed(c) && Away(c, s, steps, p) && Preserved(p, k) && Get(s, k).Some?
    requires CanSwitch(c, After(c, s, steps), p)
    ensures var turn := TurnConfiguration(engine, Next(c, After(c, s, steps), SwitchTo(p)));
      turn.providerId == p && k in turn.values && Some(turn.values[k]) == Get(s, k)
  {
    DetourRoundTrip(c, s, steps, p, k);
    SwitchActs(c, After(c, s, steps), p);
  }

  function DefaultModel(c: Catalog, p: string): string {
    match p
    case "openai" => c.openaiDefaultModel
    case "xai" => c.xaiDefaultModel
    case "zai" => "glm-5.3"
    case _ => "local-model"
  }

  /** The session acts with the model its own envelope names. */
  predicate ModelAgrees(c: Catalog, s: Session, p: string) {
    s.model == Model(p, ReadOr(s.configuration.values, Of(p, "model"), DefaultModel(c, p)))
  }

  /**
   A switch restores the chosen model for `openai` and `zai`. For `xai` and `lmstudio` it
   acts with the default while the envelope keeps the earlier choice, so the two agree only
   when there was no other choice.
   */
  lemma SwitchModelAgreesIff(c: Catalog, s: Session, p: string)
    requires WellFormed(c) && CanSwitch(c, s, p)
    ensures ModelAgrees(c, Next(c, s, SwitchTo(p)), p) <==>
      p == "openai" || p == "zai"
      || ReadOr(s.configuration.values, Of(p, "model"), DefaultModel(c, p)) == DefaultModel(c, p)
  {
    var s' := Next(c, s, SwitchTo(p));
    var k := Of(p, "model");
    if k in s.configuration.values {
      SwitchCarries(c, s, p, k);
      assert Get(s', k) == Get(s, k);
    }
  }

  /**
   A model picked while `zai` acts is routed under the identity the session was created
   with, which is the acting provider only for sessions created on `zai`.
   */
  lemma ZaiPickRoutesIff(c: Catalog, s: Session, step: Step)
    requires !Switches(step) && step.accepted && Acting(s.configuration) == "zai"
    requires var a := Apply(c, s.configuration, step.option, step.value); a.Some? && a.value.model.Some?
    ensures Next(c, s, step).model.provider == Acting(Next(c, s, step).configuration)
      <==> s.configuration.providerId == "zai"
  {
    ActingStable(c, s, step);
    GlmKeepsIdentity(c, s.configuration, step.option, step.value);
  }

  lemma GlmKeepsIdentity(c: Catalog, cfg: Configuration, option: string, value: string)
    requires ApplyGlm(c, cfg, option, value).Some?
    ensures ApplyGlm(c, cfg, option, value).value.providerId == cfg.providerId
  {
  }

  /** The identity of the envelope never changes, whatever is selected. */
  lemma {:induction false} IdentityFixed(c: Catalog, s: Session, steps: seq<Step>)
    ensures After(c, s, steps).configuration.providerId == s.configuration.providerId
    decreases |steps|
  {
    if steps != [] {
      IdentityFixed(c, Next(c, s, steps[0]), steps[1..]);
    }
  }

  // ------------------------------------------------------------ what the session shows

  /** The live values of the controls, as the surface resolves them from an envelope. */
  function Resolved(cfg: Configuration, option: string): Option<string> {
    var v, p := cfg.values, Acting(cfg);
    match option
    case "provider" => Some(p)
    case "model" =>
      if p == "openai" then Read(v, Of("openai", "model"))
      else if p == "xai" then Read(v, Of("xai", "model"))
      else if p == "lmstudio" then Read(v, Of("lmstudio", "model"))
      else if ReadOr(v, Of("zai", "mixture-mode"), "off") == "enabled" then Some("__moa__")
      else if Read(v, Of("zai", "model")).Some? then Read(v, Of("zai", "model"))
      else Read(v, Of("zai", "model-id"))
    case "thought_level" =>
      if p == "openai" then Read(v, Of("openai", "reasoning-mode"))
      else if p == "xai" then Read(v, Of("xai", "reasoning-effort"))
      else if p == "zai" then Read(v, Of("zai", "reasoning-mode"))
      else None
    case "api_endpoint" => Read(v, Of("zai", "endpoint-plan"))
    case "generation_profile" => Read(v, Of("zai", "generation-profile"))
    case "auxiliary_model" => Read(v, Of("zai", "auxiliary-model"))
    case "mixture_mode" => Read(v, Of("zai", "mixture-mode"))
    case _ => None
  }

  /** The setting that an option of a provider is stored under. */
  function SettingOf(p: string, option: string): Option<Key> {
    match p
    case "openai" =>
      (match option
       case "model" => Some(Of("openai", "model"))
       case "thought_level" => Some(Of("openai", "reasoning-mode"))
       case _ => None)
    case "xai" =>
      (match option
       case "model" => Some(Of("xai", "model"))
       case "thought_level" => Some(Of("xai", "reasoning-effort"))
       case "api_endpoint" => Some(Of("xai", "region"))
       case "transport" => Some(Of("xai", "transport"))
       case "native_compaction" => Some(Of("xai", "native-compaction"))
       case "xai_web" => Some(Of("xai", "hosted-web-search"))
       case "xai_x" => Some(Of("xai", "hosted-x-search"))
       case "xai_code" => Some(Of("xai", "hosted-code-execution"))
       case "xai_attachments" => Some(Of("xai", "hosted-attachment-search"))
       case "xai_collections" => Some(Of("xai", "hosted-collections-search"))
       case "xai_remote_mcp" => Some(Of("xai", "hosted-remote-mcp"))
       case _ => None)
    case "zai" =>
      (match option
       case "model" => Some(Of("zai", "model"))
       case "thought_level" => Some(Of("zai", "reasoning-mode"))
       case "api_endpoint" => Some(Of("zai", "endpoint-plan"))
       case "generation_profile" => Some(Of("zai", "generation-profile"))
       case "auxiliary_model" => Some(Of("zai", "auxiliary-model"))
       case "mixture_mode" => Some(Of("zai", "mixture-mode"))
       case _ => None)
    case "lmstudio" => if option == "model" then Some(Of("lmstudio", "model")) else None
    case _ => None
  }

  function DefaultOf(c: Catalog, p: string, option: string): string {
    match option
    case "model" => if p == "openai" then c.openaiDefaultModel else if p == "xai" then c.xaiDefaultModel else c.lmFirst
    case "thought_level" => if p == "openai" then "medium" else if p == "xai" then "high" else "enabled"
    case "api_endpoint" => if p == "xai" then "global" else "coding"
    case "generation_profile" => "balanced"
    case "auxiliary_model" => "glm-5.2"
    case "mixture_mode" => "off"
    case "transport" => "http"
    case _ => "disabled"
  }

  /** The value a control of the acting provider is built with, shown when nothing resolves it. */
  function Built(c: Catalog, cfg: Configuration, option: string): Option<string> {
    var v, p := cfg.values, Acting(cfg);
    var setting := SettingOf(p, option);
    if setting.None? then None
    else if p == "zai" && option == "model" then
      if ReadOr(v, Of("zai", "mixture-mode"), "off") == "enabled" then Some("__moa__")
      else Some(ReadOr(v, Of("zai", "model"), ReadOr(v, Of("zai", "model-id"), "glm-5.3")))
    else Some(ReadOr(v, setting.value, DefaultOf(c, p, option)))
  }

  function Shown(c: Catalog, cfg: Configuration, option: string): Option<string> {
    if Resolved(cfg, option).Some? then Resolved(cfg, option) else Built(c, cfg, option)
  }

  predicate Chosen(c: Catalog, s: Session, step: Step) {
    !Switches(step) && step.accepted && Apply(c, s.configuration, step.option, step.value).Some?
  }

  /** The effort shown once an option of a provider was chosen: a model may bring its own. */
  function EffortAfter(c: Catalog, cfg: Configuration, option: string, value: string): string {
    var v := cfg.values;
    match Acting(cfg)
    case "openai" =>
      var before := ReadOr(v, Of("openai", "reasoning-mode"), "medium");
      if option == "model" && before !in c.openaiLevels(value) then "high" else before
    case "xai" =>
      var before := ReadOr(v, Of("xai", "reasoning-effort"), "high");
      var model := if option == "model" then value else ReadOr(v, Of("xai", "model"), c.xaiDefaultModel);
      if before in c.xaiLevels(model) || c.xaiDefaultEffort(model).None? then before
      else c.xaiDefaultEffort(model).value
    case _ =>
      var before := ReadOr(v, Of("zai", "reasoning-mode"), "enabled");
      if option == "model" && value != "__moa__" && !c.zaiSupports(value, before) then
        if value == "glm-5.3-flash" then "max" else "enabled"
      else before
  }

  /** The other controls a selection may change: the effort, and model and mixture of `zai` by each other. */
  predicate Linked(cfg: Configuration, option: string, other: string) {
    || other == "thought_level"
    || (Acting(cfg) == "zai" && option == "model" && other == "mixture_mode")
    || (Acting(cfg) == "zai" && option == "mixture_mode" && other == "model")
  }

  /** The selection is stored as made: xAI replaces an effort its model does not have. */
  predicate Supported(c: Catalog, cfg: Configuration, option: string, value: string) {
    var model := ReadOr(cfg.values, Of("xai", "model"), c.xaiDefaultModel);
    Acting(cfg) == "xai" && option == "thought_level" ==>
      value in c.xaiLevels(model) || c.xaiDefaultEffort(model) == Some(value)
  }

  /** xAI's region control resolves to the plan of `zai`, if the envelope holds one. */
  predicate Shadowed(cfg: Configuration, option: string, value: string) {
    var plan := Read(cfg.values, Of("zai", "endpoint-plan"));
    Acting(cfg) == "xai" && option == "api_endpoint" && plan.Some? && plan.value != value
  }

  /** What a setting reads as after a selection, setting by setting. */
  function ReadAfter(c: Catalog, cfg: Configuration, option: string, value: string, k: Key): Option<string> {
    var v, p := cfg.values, Acting(cfg);
    if p == "zai" && option == "model" then
      if k == Of("zai", "mixture-mode") then Some(if value == "__moa__" then "enabled" else "off")
      else if value == "__moa__" then Read(v, k)
      else if k == Of("zai", "model") then Some(value)
      else if k == Of("zai", "reasoning-mode")
              && !c.zaiSupports(value, ReadOr(v, k, "enabled")) then Some(EffortAfter(c, cfg, option, value))
      else Read(v, k)
    else if p == "openai" && option == "model" && k == Of("openai", "reasoning-mode")
            && ReadOr(v, k, "medium") !in c.openaiLevels(value) then Some("high")
    else if p == "xai" && k == Of("xai", "reasoning-effort") then
      var stored := if option == "thought_level" then Some(value) else Read(v, k);
      var effort := if stored.Some? then stored.value else "high";
      var model := if option == "model" then value else ReadOr(v, Of("xai", "model"), c.xaiDefaultModel);
      if effort in c.xaiLevels(model) then stored else c.xaiDefaultEffort(model)
    else if SettingOf(p, option) == Some(k) then Some(value)
    else Read(v, k)
  }

  lemma GlmModelReads(c: Catalog, cfg: Configuration, value: string, k: Key)
    requires k.Of? && Acting(cfg) == "zai"
    ensures ApplyGlm(c, cfg, "model", value).Some?
    ensures Read(ApplyGlm(c, cfg, "model", value).value.values, k) == ReadAfter(c, cfg, "model", value, k)
  {
  }

  lemma GlmSettingReads(c: Catalog, cfg: Configuration, option: string, value: string, k: Key)
    requires k.Of? && Acting(cfg) == "zai" && option != "model" && ApplyGlm(c, cfg, option, value).Some?
    ensures SettingOf("zai", option).Some?
    ensures Read(ApplyGlm(c, cfg, option, value).value.values, k) == ReadAfter(c, cfg, option, value, k)
  {
  }

  lemma OpenaiReads(c: Catalog, cfg: Configuration, option: string, value: string, k: Key)
    requires k.Of? && Acting(cfg) == "openai" && ApplyOpenai(c, cfg, option, value).Some?
    ensures SettingOf("openai", option).Some?
    ensures Read(ApplyOpenai(c, cfg, option, value).value.configuration.values, k) == ReadAfter(c, cfg, option, value, k)
  {
  }

  lemma XaiNames(option: string)
    ensures SettingOf("xai", option) == if XaiName(option).None? then None else Some(Of("xai", XaiName(option).value))
  {
  }

  /** xAI accepts a selection only if the effort is one its model has, or has a replacement. */
  predicate XaiHasEffort(c: Catalog, cfg: Configuration, option: string, value: string) {
    var v := cfg.values;
    var effort := if option == "thought_level" then value else ReadOr(v, Of("xai", "reasoning-effort"), "high");
    var model := if option == "model" then value else ReadOr(v, Of("xai", "model"), c.xaiDefaultModel);
    effort in c.xaiLevels(model) || c.xaiDefaultEffort(model).Some?
  }

  lemma XaiReads(c: Catalog, cfg: Configuration, option: string, value: string, k: Key)
    requires k.Of? && Acting(cfg) == "xai" && ApplyXai(c, cfg, option, value).Some?
    ensures SettingOf("xai", option).Some? && XaiHasEffort(c, cfg, option, value)
    ensures Read(ApplyXai(c, cfg, option, value).value.configuration.values, k) == ReadAfter(c, cfg, option, value, k)
  {
    XaiNames(option);
    var name := Of("xai", XaiName(option).value);
    assert name == Of("xai", "reasoning-effort") <==> option == "thought_level";
    assert name == Of("xai", "model") <==> option == "model";
  }

  /** Nothing but the merge happens to the envelope of an accepted selection, which drops no key. */
  lemma SelectionMerges(c: Catalog, s: Session, step: Step, k: Key)
    requires Chosen(c, s, step)
    ensures Read(Next(c, s, step).configuration.values, k)
      == Read(Apply(c, s.configuration, step.option, step.value).value.configuration.values, k)
  {
    var v := Apply(c, s.configuration, step.option, step.value).value.configuration.values;
    assert k in s.configuration.values ==> k in v;
  }

  /** Main result: a selection stores its value under its own setting, and changes no other but as stated. */
  lemma SelectionReads(c: Catalog, s: Session, step: Step, k: Key)
    requires Chosen(c, s, step) && k.Of?
    ensures SettingOf(Acting(s.configuration), step.option).Some?
    ensures Acting(s.configuration) == "xai" ==> XaiHasEffort(c, s.configuration, step.option, step.value)
    ensures Read(Next(c, s, step).configuration.values, k)
      == ReadAfter(c, s.configuration, step.option, step.value, k)
  {
    SelectionMerges(c, s, step, k);
    var cfg := s.configuration;
    match Acting(cfg)
    case "openai" => OpenaiReads(c, cfg, step.option, step.value, k);
    case "xai" => XaiReads(c, cfg, step.option, step.value, k);
    case "zai" =>
      if step.option == "model" {
        GlmModelReads(c, cfg, step.value, k);
      } else {
        GlmSettingReads(c, cfg, step.option, step.value, k);
      }
    case "lmstudio" =>
    case _ =>
  }

  /** An envelope that reads, setting by setting, as after a selection. */
  ghost predicate ReadsAs(c: Catalog, cfg: Configuration, option: string, value: string, after: Configuration) {
    && Acting(after) == Acting(cfg) && SettingOf(Acting(cfg), option).Some?
    && (Acting(cfg) == "xai" ==> XaiHasEffort(c, cfg, option, value))
    && forall k: Key :: k.Of? ==> Read(after.values, k) == ReadAfter(c, cfg, option, value, k)
  }

  lemma SelectionReadsAs(c: Catalog, s: Session, step: Step)
    requires Chosen(c, s, step)
    ensures ReadsAs(c, s.configuration, step.option, step.value, Next(c, s, step).configuration)
  {
    ActingStable(c, s, step);
    SelectionReads(c, s, step, Of("", ""));
    forall k: Key | k.Of?
      ensures Read(Next(c, s, step).configuration.values, k)
           == ReadAfter(c, s.configuration, step.option, step.value, k)
    {
      SelectionReads(c, s, step, k);
    }
  }

  /** All but two controls show their own setting, or its default. */
  lemma ShownPlain(c: Catalog, cfg: Configuration, option: string)
    requires SettingOf(Acting(cfg), option).Some?
    requires !(Acting(cfg) == "zai" && option == "model") && !(Acting(cfg) == "xai" && option == "api_endpoint")
    ensures Shown(c, cfg, option)
      == Some(ReadOr(cfg.values, SettingOf(Acting(cfg), option).value, DefaultOf(c, Acting(cfg), option)))
  {
  }

  lemma SettingInjective(p: string, a: string, b: string)
    requires SettingOf(p, a).Some? && SettingOf(p, a) == SettingOf(p, b)
    ensures a == b
  {
    OptionIs(p, a);
    OptionIs(p, b);
  }

  function OptionOf(p: string, name: string): string {
    if name == "model" then "model"
    else if name == "reasoning-mode" || name == "reasoning-effort" then "thought_level"
    else if name == "region" || name == "endpoint-plan" then "api_endpoint"
    else
      match name
      case "transport" => "transport"
      case "native-compaction" => "native_compaction"
      case "hosted-web-search" => "xai_web"
      case "hosted-x-search" => "xai_x"
      case "hosted-code-execution" => "xai_code"
      case "hosted-attachment-search" => "xai_attachments"
      case "hosted-collections-search" => "xai_collections"
      case "hosted-remote-mcp" => "xai_remote_mcp"
      case "generation-profile" => "generation_profile"
      case "auxiliary-model" => "auxiliary_model"
      case _ => "mixture_mode"
  }

  lemma OptionIs(p: string, option: string)
    requires SettingOf(p, option).Some?
    ensures option == OptionOf(p, SettingOf(p, option).value.name)
  {
  }

  lemma SettingProvider(p: string, option: string)
    requires SettingOf(p, option).Some?
    ensures SettingOf(p, option).value.Of? && SettingOf(p, option).value.provider == p
    ensures p in {"openai", "xai", "zai", "lmstudio"}
  {
  }

  lemma ChosenShown(c: Catalog, cfg: Configuration, option: string, value: string, after: Configuration)
    requires ReadsAs(c, cfg, option, value, after)
    ensures Shown(c, after, option) == Some(value) <==>
              Supported(c, cfg, option, value) && !Shadowed(cfg, option, value)
  {
    var p, k := Acting(cfg), SettingOf(Acting(cfg), option).value;
    SettingProvider(p, option);
    assert Read(after.values, k) == ReadAfter(c, cfg, option, value, k);
    if p == "zai" && option == "model" {
      assert Read(after.values, Of("zai", "mixture-mode")) == ReadAfter(c, cfg, option, value, Of("zai", "mixture-mode"));
    } else if p == "xai" && option == "api_endpoint" {
      assert Read(after.values, Of("zai", "endpoint-plan")) == Read(cfg.values, Of("zai", "endpoint-plan"));
    } else {
      ShownPlain(c, after, option);
      ChosenReads(c, cfg, option, value, k);
    }
  }

  lemma ChosenReads(c: Catalog, cfg: Configuration, option: string, value: string, k: Key)
    requires SettingOf(Acting(cfg), option) == Some(k) && !(Acting(cfg) == "zai" && option == "model")
    requires Acting(cfg) == "xai" ==> XaiHasEffort(c, cfg, option, value)
    ensures ReadAfter(c, cfg, option, value, k).Some?
    ensures ReadAfter(c, cfg, option, value, k) == Some(value) <==> Supported(c, cfg, option, value)
  {
  }

  lemma EffortShown(c: Catalog, cfg: Configuration, option: string, value: string, after: Configuration)
    requires ReadsAs(c, cfg, option, value, after) && Acting(cfg) in {"openai", "xai", "zai"}
    ensures option != "thought_level" ==> Shown(c, after, "thought_level") == Some(EffortAfter(c, cfg, option, value))
  {
  }

  /** The settings a selection may write besides its own. */
  predicate Side(cfg: Configuration, option: string, k: Key) {
    || SettingOf(Acting(cfg), "thought_level") == Some(k)
    || (Acting(cfg) == "zai" && option == "model" && k == Of("zai", "mixture-mode"))
  }

  lemma OtherReads(c: Catalog, cfg: Configuration, option: string, value: string, k: Key)
    requires SettingOf(Acting(cfg), option) != Some(k) && !Side(cfg, option, k)
    ensures ReadAfter(c, cfg, option, value, k) == Read(cfg.values, k)
  {
  }

  lemma OtherKept(c: Catalog, cfg: Configuration, option: string, value: string, after: Configuration, k: Key)
    requires ReadsAs(c, cfg, option, value, after) && k.Of?
    requires SettingOf(Acting(cfg), option) != Some(k) && !Side(cfg, option, k)
    ensures Read(after.values, k) == Read(cfg.values, k)
  {
    OtherReads(c, cfg, option, value, k);
    assert Read(after.values, k) == ReadAfter(c, cfg, option, value, k);
  }

  lemma OtherPlain(c: Catalog, cfg: Configuration, option: string, value: string, after: Configuration, other: string)
    requires ReadsAs(c, cfg, option, value, after) && other != option && !Linked(cfg, option, other)
    requires SettingOf(Acting(cfg), other).Some?
    requires !(Acting(cfg) == "zai" && other == "model") && !(Acting(cfg) == "xai" && other == "api_endpoint")
    ensures Shown(c, after, other) == Shown(c, cfg, other)
  {
    var p := Acting(cfg);
    var k := SettingOf(p, other).value;
    ShownPlain(c, cfg, other);
    ShownPlain(c, after, other);
    SettingProvider(p, other);
    if SettingOf(p, option) == Some(k) {
      SettingInjective(p, option, other);
    }
    if SettingOf(p, "thought_level") == Some(k) {
      SettingInjective(p, "thought_level", other);
    }
    if p == "zai" && k == Of("zai", "mixture-mode") {
      SettingInjective(p, "mixture_mode", other);
    }
    OtherKept(c, cfg, option, value, after, k);
  }

  /** Controls that do not belong to the acting provider resolve to settings it does not write. */
  lemma OtherForeign(c: Catalog, cfg: Configuration, option: string, value: string, after: Configuration, other: string)
    requires ReadsAs(c, cfg, option, value, after) && other != option && !Linked(cfg, option, other)
    requires SettingOf(Acting(cfg), other).None?
    ensures Shown(c, after, other) == Shown(c, cfg, other)
  {
    var p := Acting(cfg);
    SettingProvider(p, option);
    if p != "zai" {
      ZaiKept(c, cfg, option, value, after);
    }
  }

  lemma ZaiKept(c: Catalog, cfg: Configuration, option: string, value: string, after: Configuration)
    requires ReadsAs(c, cfg, option, value, after) && Acting(cfg) != "zai"
    ensures forall k: Key :: k.Of? && k.provider == "zai" ==> Read(after.values, k) == Read(cfg.values, k)
  {
    forall k: Key | k.Of? && k.provider == "zai"
      ensures Read(after.values, k) == Read(cfg.values, k)
    {
      SettingProvider(Acting(cfg), option);
      if SettingOf(Acting(cfg), "thought_level") == Some(k) {
        SettingProvider(Acting(cfg), "thought_level");
      }
      OtherKept(c, cfg, option, value, after, k);
    }
  }

  lemma OtherZaiModel(c: Catalog, cfg: Configuration, option: string, value: string, after: Configuration)
    requires ReadsAs(c, cfg, option, value, after) && option != "model" && option != "mixture_mode" && Acting(cfg) == "zai"
    ensures Shown(c, after, "model") == Shown(c, cfg, "model")
  {
    OtherKept(c, cfg, option, value, after, Of("zai", "mixture-mode"));
    OtherKept(c, cfg, option, value, after, Of("zai", "model"));
    OtherKept(c, cfg, option, value, after, Of("zai", "model-id"));
  }

  lemma OtherXaiRegion(c: Catalog, cfg: Configuration, option: string, value: string, after: Configuration)
    requires ReadsAs(c, cfg, option, value, after) && option != "api_endpoint" && Acting(cfg) == "xai"
    ensures Shown(c, after, "api_endpoint") == Shown(c, cfg, "api_endpoint")
  {
    OtherKept(c, cfg, option, value, after, Of("xai", "region"));
    OtherKept(c, cfg, option, value, after, Of("zai", "endpoint-plan"));
  }

  lemma OtherShown(c: Catalog, cfg: Configuration, option: string, value: string, after: Configuration, other: string)
    requires ReadsAs(c, cfg, option, value, after) && other != option && !Linked(cfg, option, other)
    ensures Shown(c, after, other) == Shown(c, cfg, other)
  {
    if SettingOf(Acting(cfg), other).None? {
      OtherForeign(c, cfg, option, value, after, other);
    } else if Acting(cfg) == "zai" && other == "model" {
      OtherZaiModel(c, cfg, option, value, after);
    } else if Acting(cfg) == "xai" && other == "api_endpoint" {
      OtherXaiRegion(c, cfg, option, value, after);
    } else {
      OtherPlain(c, cfg, option, value, after, other);
    }
  }

  /**
   Main result: after a selection its control shows the value chosen, with exactly two
   exceptions, both while xAI acts: an effort that its model does not have, and a region
   shadowed by the plan of `zai`.
   */
  lemma SelectionShownIff(c: Catalog, s: Session, step: Step)
    requires Chosen(c, s, step)
    ensures Shown(c, Next(c, s, step).configuration, step.option) == Some(step.value) <==>
              && Supported(c, s.configuration, step.option, step.value)
              && !Shadowed(s.configuration, step.option, step.value)
  {
    SelectionReadsAs(c, s, step);
    ChosenShown(c, s.configuration, step.option, step.value, Next(c, s, step).configuration);
  }

  /** Main result: every other control shows what it did, but for those linked to the one chosen. */
  lemma OthersShownAsBefore(c: Catalog, s: Session, step: Step, other: string)
    requires Chosen(c, s, step) && other != step.option && !Linked(s.configuration, step.option, other)
    ensures Shown(c, Next(c, s, step).configuration, other) == Shown(c, s.configuration, other)
  {
    SelectionReadsAs(c, s, step);
    OtherShown(c, s.configuration, step.option, step.value, Next(c, s, step).configuration, other);
  }

  /** And the linked ones show exactly this. */
  lemma LinkedShown(c: Catalog, s: Session, step: Step)
    requires Chosen(c, s, step)
    ensures var cfg, p := Next(c, s, step).configuration, Acting(s.configuration);
      && (step.option != "thought_level" && p in {"openai", "xai", "zai"} ==>
            Shown(c, cfg, "thought_level") == Some(EffortAfter(c, s.configuration, step.option, step.value)))
      && (p == "zai" && step.option == "model" ==>
            Shown(c, cfg, "mixture_mode") == Some(if step.value == "__moa__" then "enabled" else "off"))
      && (p == "zai" && step.option == "mixture_mode" && step.value == "enabled" ==> Shown(c, cfg, "model") == Some("__moa__"))
  {
    SelectionReadsAs(c, s, step);
    if Acting(s.configuration) in {"openai", "xai", "zai"} {
      EffortShown(c, s.configuration, step.option, step.value, Next(c, s, step).configuration);
    }
  }

  /** A chosen model is the one the session acts with, if its name is one at all. */
  lemma ModelFollows(c: Catalog, s: Session, step: Step)
    requires Chosen(c, s, step) && step.option == "model" && step.value != "__moa__" && c.validModelId(step.value)
    ensures var p := Acting(s.configuration);
      Next(c, s, step).model == Model(if p == "zai" then s.configuration.providerId else p, step.value)
  {
    var p := Acting(s.configuration);
    if p == "zai" {
      GlmModelReads(c, s.configuration, step.value, Of("zai", "model"));
      GlmKeepsIdentity(c, s.configuration, "model", step.value);
    }
  }

  /** Every setting a control stores under is one that a switch carries over. */
  lemma SettingPreserved(p: string, option: string)
    requires SettingOf(p, option).Some?
    ensures Preserved(p, SettingOf(p, option).value)
  {
    SettingProvider(p, option);
    if p == "xai" {
      XaiNames(option);
    }
  }

  lemma DetourReads(c: Catalog, s: Session, steps: seq<Step>, p: string, option: string)
    requires WellFormed(c) && Away(c, s, steps, p) && CanSwitch(c, After(c, s, steps), p)
    requires SettingOf(p, option).Some? && Read(s.configuration.values, SettingOf(p, option).value).Some?
    ensures var k, back := SettingOf(p, option).value, Next(c, After(c, s, steps), SwitchTo(p));
      && Acting(back.configuration) == p
      && Read(back.configuration.values, k) == Read(s.configuration.values, k)
  {
    SettingPreserved(p, option);
    DetourRoundTrip(c, s, steps, p, SettingOf(p, option).value);
  }

  /**
   Main result: a value chosen while p acts is shown again after any detour through other
   providers and a switch back to p, with the two exceptions of xAI: an effort that its model
   does not have, and a region shadowed by the plan of `zai` that the detour ended with.
   */
  lemma ChoiceSurvivesDetourIff(c: Catalog, s: Session, step: Step, steps: seq<Step>)
    requires WellFormed(c) && Chosen(c, s, step)
    requires Away(c, Next(c, s, step), steps, Acting(s.configuration))
    requires CanSwitch(c, After(c, Next(c, s, step), steps), Acting(s.configuration))
    ensures var back := Next(c, After(c, Next(c, s, step), steps), SwitchTo(Acting(s.configuration))).configuration;
      Shown(c, back, step.option) == Some(step.value) <==>
        && Supported(c, s.configuration, step.option, step.value)
        && !Shadowed(back, step.option, step.value)
  {
    var p, chosen := Acting(s.configuration), Next(c, s, step);
    SelectionReadsAs(c, s, step);
    SwitchActs(c, After(c, chosen, steps), p);
    if p == "zai" && step.option == "model" {
      ZaiModelReads(c, s.configuration, step.value, chosen.configuration);
      ModelSurvives(c, chosen, step.value, steps);
    } else {
      StoredReads(c, s.configuration, step.option, step.value, chosen.configuration);
      var stored := Read(chosen.configuration.values, SettingOf(p, step.option).value).value;
      if p == "xai" && step.option == "api_endpoint" {
        DetourReads(c, chosen, steps, p, step.option);
      } else {
        SettingSurvives(c, chosen, p, step.option, stored, steps);
      }
    }
  }

  lemma ModelSurvives(c: Catalog, s: Session, value: string, steps: seq<Step>)
    requires WellFormed(c) && Away(c, s, steps, "zai") && CanSwitch(c, After(c, s, steps), "zai")
    requires Read(s.configuration.values, Of("zai", "mixture-mode")) == Some(if value == "__moa__" then "enabled" else "off")
    requires value != "__moa__" ==> Read(s.configuration.values, Of("zai", "model")) == Some(value)
    ensures Shown(c, Next(c, After(c, s, steps), SwitchTo("zai")).configuration, "model") == Some(value)
  {
    DetourReads(c, s, steps, "zai", "mixture_mode");
    if value != "__moa__" {
      DetourReads(c, s, steps, "zai", "model");
    }
  }

  lemma SettingSurvives(c: Catalog, s: Session, p: string, option: string, value: string, steps: seq<Step>)
    requires WellFormed(c) && Away(c, s, steps, p) && CanSwitch(c, After(c, s, steps), p)
    requires SettingOf(p, option).Some? && Read(s.configuration.values, SettingOf(p, option).value) == Some(value)
    requires !(p == "zai" && option == "model") && !(p == "xai" && option == "api_endpoint")
    ensures Shown(c, Next(c, After(c, s, steps), SwitchTo(p)).configuration, option) == Some(value)
  {
    DetourReads(c, s, steps, p, option);
    ShownPlain(c, Next(c, After(c, s, steps), SwitchTo(p)).configuration, option);
  }

  lemma ZaiModelReads(c: Catalog, cfg: Configuration, value: string, after: Configuration)
    requires ReadsAs(c, cfg, "model", value, after) && Acting(cfg) == "zai"
    ensures Read(after.values, Of("zai", "mixture-mode")) == Some(if value == "__moa__" then "enabled" else "off")
    ensures value != "__moa__" ==> Read(after.values, Of("zai", "model")) == Some(value)
  {
  }

  lemma StoredReads(c: Catalog, cfg: Configuration, option: string, value: string, after: Configuration)
    requires ReadsAs(c, cfg, option, value, after) && !(Acting(cfg) == "zai" && option == "model")
    ensures var stored := Read(after.values, SettingOf(Acting(cfg), option).value);
      stored.Some? && (stored == Some(value) <==> Supported(c, cfg, option, value))
  {
    SettingProvider(Acting(cfg), option);
    ChosenReads(c, cfg, option, value, SettingOf(Acting(cfg), option).value);
  }

  // ------------------------------------------------------------------ the program's form

  /** The session actor, whose state each accepted selection updates. */
  class SessionActor {
    var configuration: Configuration
    var model: Model

    function State(): Session
      reads this
    {
      Session(configuration, model)
    }

    constructor (configuration: Configuration, model: Model)
      ensures State() == Session(configuration, model)
    {
      this.configuration, this.model := configuration, model;
    }

    /** `valid` is the verdict of the session's own adapter on the merged envelope. */
    method SetConfigOption(c: Catalog, option: string, value: string, valid: bool) returns (done: bool)
      modifies this
      ensures State() == Next(c, old(State()), Step(option, value, valid))
      ensures done <==> Apply(c, old(configuration), option, value).Some? && valid
    {
      var applied := Apply(c, configuration, option, value);
      if applied.None? {
        return false;
      }
      var merged := Merge(configuration, applied.value.configuration.values);
      if !valid {
        return false;
      }
      configuration := merged;
      if applied.value.model.Some? {
        model := applied.value.model.value;
      }
      done := true;
    }
  }
}
