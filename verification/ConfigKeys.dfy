/** Which config keys a definition needs, and what having them all buys (domain/carrier_definition.py,
    domain/definitions.py). */
module ConfigKeys {
  import opened Definition
  import opened Prelude
  import opened Render
  import opened Values

  type Config = map<string, Value>

  const PREFIX := "config."

  /** The key a config source names; no other source names one. */
  function KeyOf(source: string): set<string> {
    if IsConfigSource(source) then {source[|PREFIX|..]} else {}
  }

  function EntryKeys(e: Entry): set<string>
    decreases e
  {
    if !e.origin.Source? then {}
    else
      KeyOf(e.origin.path) +
      match e.origin.how
      case Pluck(item) => KeyOf(item)
      case Each(inner) => MappingKeys(inner)
      case _ => {}
  }

  function MappingKeys(entries: seq<Entry>): set<string>
    decreases entries
  {
    set e, k | e in entries && k in EntryKeys(e) :: k
  }

  function StepKeys(step: Step): set<string> {
    KeyOf(step.url)
    + (set p, k | p in Holes(step) && k in KeyOf(p) :: k)
    + MappingKeys(step.mapping)
  }

  function OperationKeys(op: Operation): set<string> {
    (set p, k | p in op.allocate && k in KeyOf(p) :: k) + (set s, k | s in op.steps && k in StepKeys(s) :: k)
  }

  function AuthKeys(auth: Auth): set<string> {
    match auth
    case QueryKey(secret) => KeyOf(secret)
    case HeaderKey(secret) => KeyOf(secret)
    case NoAuth => {}
    case PluginAuth(_, keys) => keys
  }

  function ReferencedConfigKeys(d: CarrierDefinition): set<string> {
    AuthKeys(d.auth) + set name, k | name in d.operations && k in OperationKeys(d.operations[name]) :: k
  }

  /** One entry's keys as the program gathers them, into a set it is handed. */
  method CollectConfigKeys(e: Entry, into: set<string>) returns (keys: set<string>)
    ensures keys == into + EntryKeys(e)
    decreases e
  {
    keys := into;
    if e.origin.Source? {
      if IsConfigSource(e.origin.path) {
        keys := keys + {e.origin.path[|PREFIX|..]};
      }
      assert keys == into + KeyOf(e.origin.path);
      if e.origin.how.Pluck? {
        if IsConfigSource(e.origin.how.item) {
          keys := keys + {e.origin.how.item[|PREFIX|..]};
        }
        return keys;
      }
      if e.origin.how.Each? {
        var inner := e.origin.how.inner;
        ghost var start := keys;
        for i := 0 to |inner|
          invariant keys == start + MappingKeys(inner[..i])
        {
          assert inner[..i + 1] == inner[..i] + [inner[i]];
          assert MappingKeys(inner[..i + 1]) == MappingKeys(inner[..i]) + EntryKeys(inner[i]);
          keys := CollectConfigKeys(inner[i], keys);
        }
        assert inner[..|inner|] == inner;
      }
    }
  }

  function ResolveConfigPath(config: Config, path: string): Option<Value> {
    Walk(Obj(config), Split(path))
  }

  predicate Provided(config: Config, key: string) {
    ResolveConfigPath(config, key).Some? && ResolveConfigPath(config, key).value != Null
  }

  function MissingConfigKeys(d: CarrierDefinition, config: Config): set<string> {
    set k | k in ReferencedConfigKeys(d) && !Provided(config, k)
  }

  /** `source` stands somewhere in the definition: auth secret, allocate prefix, url, filename, or any
      mapping source or pluck, at any depth of `each`. */
  predicate Mentions(d: CarrierDefinition, source: string) {
    || SecretOf(d.auth) == Some(source)
    || exists name :: name in d.operations && OperationMentions(d.operations[name], source)
  }

  predicate OperationMentions(op: Operation, source: string) {
    source in op.allocate || exists s :: s in op.steps && StepMentions(s, source)
  }

  predicate StepMentions(step: Step, source: string) {
    source == step.url || source in Holes(step) || ReadsAny(step.mapping, source)
  }

  lemma {:induction false} EntryKeysAreReads(e: Entry, key: string)
    ensures key in EntryKeys(e) <==> Reads(e, PREFIX + key)
    decreases e
  {
    assert (PREFIX + key)[|PREFIX|..] == key;
    assert forall s :: key in KeyOf(s) <==> s == PREFIX + key by {
      forall s | IsConfigSource(s) ensures s == PREFIX + s[|PREFIX|..] {
      }
    }
    if e.origin.Source? && e.origin.how.Each? {
      forall i | i in e.origin.how.inner ensures key in EntryKeys(i) <==> Reads(i, PREFIX + key) {
        EntryKeysAreReads(i, key);
      }
    }
  }

  lemma KeyOfInverse(source: string, key: string)
    ensures key in KeyOf(source) <==> source == PREFIX + key
  {
  }

  lemma StepKeysAreMentions(step: Step, key: string)
    ensures key in StepKeys(step) <==> StepMentions(step, PREFIX + key)
  {
    var source := PREFIX + key;
    KeyOfInverse(source, key);
    forall s ensures key in KeyOf(s) <==> s == source {
      KeyOfInverse(s, key);
    }
    forall e | e in step.mapping ensures key in EntryKeys(e) <==> Reads(e, source) {
      EntryKeysAreReads(e, key);
    }
    assert source in Holes(step) ==> key in (set p, k | p in Holes(step) && k in KeyOf(p) :: k);
  }

  lemma OperationKeysAreMentions(op: Operation, key: string)
    ensures key in OperationKeys(op) <==> OperationMentions(op, PREFIX + key)
  {
    var source := PREFIX + key;
    KeyOfInverse(source, key);
    forall s ensures key in KeyOf(s) <==> s == source {
      KeyOfInverse(s, key);
    }
    forall s | s in op.steps ensures key in StepKeys(s) <==> StepMentions(s, source) {
      StepKeysAreMentions(s, key);
    }
    assert source in op.allocate ==> key in (set p, k | p in op.allocate && k in KeyOf(p) :: k);
  }

  /** The collector finds exactly the config sources the definition mentions, and a plugin's own keys. */
  lemma CollectorFindsMentions(d: CarrierDefinition, key: string)
    ensures key in ReferencedConfigKeys(d) <==>
              Mentions(d, PREFIX + key) || (d.auth.PluginAuth? && key in d.auth.configKeys)
  {
    if SecretOf(d.auth).Some? {
      KeyOfInverse(d.auth.secret, key);
    }
    forall name | name in d.operations
      ensures key in OperationKeys(d.operations[name]) <==> OperationMentions(d.operations[name], PREFIX + key)
    {
      OperationKeysAreMentions(d.operations[name], key);
    }
  }

  /** The renderer's walk from the fact root and the config reader's walk below it meet. */
  lemma WalkersAgree(facts: Facts, config: Config, key: string)
    requires "config" in facts && facts["config"] == Obj(config)
    ensures Walk(Obj(facts), Split(PREFIX + key)) == ResolveConfigPath(config, key)
  {
    SplitAfterRoot("config", key);
    assert PREFIX + key == "config" + "." + key;
    assert (["config"] + Split(key))[1..] == Split(key);
  }

  /** Nothing is missing exactly when every config source in the definition resolves to a non-null value
      in the renderer, and every key of a plugin's own is provided. */
  lemma NothingMissingMeans(d: CarrierDefinition, config: Config, facts: Facts)
    requires "config" in facts && facts["config"] == Obj(config)
    ensures MissingConfigKeys(d, config) == {} <==>
              && (forall source :: Mentions(d, source) && IsConfigSource(source) ==>
                    Resolve(source, facts).Ok? && Resolve(source, facts).value != Null)
              && (d.auth.PluginAuth? ==> forall k :: k in d.auth.configKeys ==> Provided(config, k))
  {
    forall source | IsConfigSource(source)
      ensures source == PREFIX + source[|PREFIX|..]
      ensures source[|PREFIX|..] in ReferencedConfigKeys(d) <==>
                Mentions(d, source) || (d.auth.PluginAuth? && source[|PREFIX|..] in d.auth.configKeys)
      ensures Walk(Obj(facts), Split(source)) == ResolveConfigPath(config, source[|PREFIX|..])
    {
      CollectorFindsMentions(d, source[|PREFIX|..]);
      WalkersAgree(facts, config, source[|PREFIX|..]);
    }
    forall k ensures k in ReferencedConfigKeys(d) <==>
                       Mentions(d, PREFIX + k) || (d.auth.PluginAuth? && k in d.auth.configKeys)
             ensures IsConfigSource(PREFIX + k) && (PREFIX + k)[|PREFIX|..] == k
    {
      CollectorFindsMentions(d, k);
    }
    if MissingConfigKeys(d, config) != {} {
      var k :| k in MissingConfigKeys(d, config);
      assert !Provided(config, k) && IsConfigSource(PREFIX + k);
    }
    assert forall k :: k in MissingConfigKeys(d, config) <==> k in ReferencedConfigKeys(d) && !Provided(config, k);
  }

  /** With nothing missing, no config fact a step of the definition reads is absent when it renders. */
  lemma CompleteConfigResolves(d: CarrierDefinition, name: string, step: Step, config: Config, facts: Facts,
                               source: string)
    requires "config" in facts && facts["config"] == Obj(config)
    requires MissingConfigKeys(d, config) == {}
    requires name in d.operations && step in d.operations[name].steps
    requires StepReads(d, step, source) && IsConfigSource(source)
    ensures Walk(Obj(facts), Split(source)).Some?
    ensures Root(source) == "config"
  {
    assert Mentions(d, source);
    NothingMissingMeans(d, config, facts);
    assert source == "config" + "." + source[|PREFIX|..];
    SplitAfterRoot("config", source[|PREFIX|..]);
  }
}
