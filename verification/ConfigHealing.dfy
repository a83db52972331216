// Schema validation, self-healing and splicing of configurations.
module ConfigHealing {
  import opened Options
  import opened ConfigText

  datatype Schema = Schema(required: seq<string>, optional: seq<string>)

  datatype Strategy = NoFix | Defaults | RemoveInvalid | Both

  /** Required keys the configuration lacks, in schema order; each stands for one error message. */
  function Missing(required: seq<string>, c: Config): seq<string> {
    if required == [] then []
    else
      var last := required[|required| - 1];
      Missing(required[..|required| - 1], c) + (if last in c then [] else [last])
  }

  /** The missing keys come in the order of the list, each as often as it is listed. */
  lemma {:induction false} MissingInOrder(one: seq<string>, two: seq<string>, key: string, c: Config)
    ensures Missing([key], c) == if key in c then [] else [key]
    ensures Missing(one + two, c) == Missing(one, c) + Missing(two, c)
  {
    assert [key][..0] == [];
    assert Missing([], c) == [];
    if two == [] {
      assert one + two == one;
    } else {
      var n := |two| - 1;
      MissingInOrder(one, two[..n], key, c);
      assert (one + two)[..|one| + n] == one + two[..n];
    }
  }

  lemma {:induction false} MissingMembers(required: seq<string>, c: Config)
    ensures forall key :: key in Missing(required, c) <==> key in required && key !in c
  {
    if required != [] {
      MissingMembers(required[..|required| - 1], c);
      assert required == required[..|required| - 1] + [required[|required| - 1]];
    }
  }

  /** The errors are the missing keys alone: configurations that agree on the required keys agree on them. */
  lemma {:induction false} MissingDependsOnKeys(required: seq<string>, c: Config, d: Config)
    requires forall key | key in required :: key in c <==> key in d
    ensures Missing(required, c) == Missing(required, d)
  {
    if required != [] { MissingDependsOnKeys(required[..|required| - 1], c, d); }
  }

  method Validate(schema: Schema, c: Config) returns (errors: seq<string>)
    ensures errors == Missing(schema.required, c)
  {
    errors := [];
    for k := 0 to |schema.required|
      invariant errors == Missing(schema.required[..k], c)
    {
      var key := schema.required[k];
      assert schema.required[..k + 1][..k] == schema.required[..k];
      if key !in c {
        errors := errors + [key];
      }
    }
    assert schema.required[..|schema.required|] == schema.required;
  }

  ghost predicate Valid(schema: Schema, c: Config) { forall key | key in schema.required :: key in c }

  lemma ValidIffNoErrors(schema: Schema, c: Config)
    ensures Valid(schema, c) <==> Missing(schema.required, c) == []
  {
    MissingMembers(schema.required, c);
    var missing := Missing(schema.required, c);
    assert missing != [] ==> missing[0] in missing;
    if !Valid(schema, c) {
      var key :| key in schema.required && key !in c;
      assert key in Missing(schema.required, c);
    }
  }

  predicate InSchema(schema: Schema, key: string) { key in schema.required || key in schema.optional }

  function Keep(schema: Schema, c: Config): Config {
    map key | key in c && InSchema(schema, key) :: c[key]
  }

  class ConfigHealer {
    const schema: Schema
    const strategy: Strategy
    var defaults: Config

    constructor (schema: Schema, strategy: Strategy)
      ensures this.schema == schema && this.strategy == strategy && defaults == map[]
    {
      this.schema := schema;
      this.strategy := strategy;
      defaults := map[];
    }

    method SetDefault(name: string, value: ConfigValue)
      modifies this
      ensures defaults == old(defaults)[name := value]
    {
      defaults := defaults[name := value];
    }

    /** Adds the default of every missing required key that has one. */
    method FillDefaults(c: Config) returns (healed: Config)
      ensures IsFilled(schema, defaults, c, healed)
      ensures forall key :: key in healed <==> key in c || (key in schema.required && key in defaults)
      ensures forall key | key in healed :: healed[key] == if key in c then c[key] else defaults[key]
    {
      healed := c;
      for k := 0 to |schema.required|
        invariant forall key | key in c :: key in healed && healed[key] == c[key]
        invariant forall key | key in healed && key !in c ::
          key in schema.required && key in defaults && healed[key] == defaults[key]
        invariant forall j | 0 <= j < k && schema.required[j] in defaults :: schema.required[j] in healed
      {
        var key := schema.required[k];
        if key !in healed {
          if key in defaults {
            healed := healed[key := defaults[key]];
          }
        }
      }
    }

    method Heal(c: Config) returns (r: Result<Config, seq<string>>)
      ensures Healed(schema, strategy, defaults, c, r)
    {
      var errors := Validate(schema, c);
      ValidIffNoErrors(schema, c);
      if |errors| == 0 {
        return Ok(c);
      }
      var healed := c;
      match strategy {
        case NoFix => return Err(errors);
        case Defaults => healed := FillDefaults(c);
        case RemoveInvalid => healed := Keep(schema, healed);
        case Both =>
          healed := FillDefaults(c);
          healed := Keep(schema, healed);
      }
      var healErrors := Validate(schema, healed);
      ValidIffNoErrors(schema, healed);
      r := if |healErrors| == 0 then Ok(healed) else Err(healErrors);
      RepairErrors(schema, strategy, defaults, c, healed);
    }

    method Splice(c: Config, d: Config) returns (r: Config)
      ensures r == c + d
    {
      r := c;
      var left := d.Keys;
      while left != {}
        invariant left <= d.Keys
        invariant r.Keys == c.Keys + (d.Keys - left)
        invariant forall key | key in r :: r[key] == if key in d && key !in left then d[key] else c[key]
        decreases |left|
      {
        var key :| key in left;
        r := r[key := d[key]];
        left := left - {key};
      }
    }
  }

  /** `healed` is `c` plus defaults for exactly those missing required keys that have one. */
  ghost predicate IsFilled(schema: Schema, defaults: Config, c: Config, healed: Config) {
    && (forall key :: key in healed <==> key in c || (key in schema.required && key in defaults))
    && (forall key | key in healed :: healed[key] == if key in c then c[key] else defaults[key])
  }

  /** Required keys that neither the configuration nor the defaults provide. */
  ghost function Uncovered(schema: Schema, defaults: Config, c: Config): seq<string> {
    Missing(schema.required, c + defaults)
  }

  /**
   * What healing promises.  A valid configuration is returned as it is, foreign keys included.
   * Otherwise only the strategies with defaults can succeed, and they do exactly when every
   * missing key has one; the errors left are the uncovered keys.
   */
  ghost predicate Healed(
      schema: Schema, strategy: Strategy, defaults: Config, c: Config, r: Result<Config, seq<string>>) {
    if Valid(schema, c) then r == Ok(c)
    else if strategy == NoFix || strategy == RemoveInvalid then r == Err(Missing(schema.required, c))
    else if Uncovered(schema, defaults, c) != [] then r == Err(Uncovered(schema, defaults, c))
    else
      && r.Ok?
      && Valid(schema, r.value)
      && (forall key | key in c && (strategy == Both ==> InSchema(schema, key)) ::
            key in r.value && r.value[key] == c[key])
      && (forall key | key in r.value :: if key in c then r.value[key] == c[key]
            else key in schema.required && key in defaults && r.value[key] == defaults[key])
      && (strategy == Both ==> forall key | key in r.value :: InSchema(schema, key))
  }

  /** The errors after a repair are what the strategy leaves uncovered. */
  lemma RepairErrors(schema: Schema, strategy: Strategy, defaults: Config, c: Config, healed: Config)
    requires strategy != NoFix
    requires strategy == RemoveInvalid ==> healed == Keep(schema, c)
    requires strategy == Defaults ==> IsFilled(schema, defaults, c, healed)
    requires strategy == Both ==>
      exists filled :: IsFilled(schema, defaults, c, filled) && healed == Keep(schema, filled)
    ensures Missing(schema.required, healed)
      == if strategy == RemoveInvalid then Missing(schema.required, c) else Uncovered(schema, defaults, c)
  {
    MissingDependsOnKeys(schema.required, healed, if strategy == RemoveInvalid then c else c + defaults);
  }

  /** Whatever is returned validates, and healing it again changes nothing. */
  lemma HealingIsIdempotent(schema: Schema, strategy: Strategy, defaults: Config, c: Config,
      r: Result<Config, seq<string>>, again: Result<Config, seq<string>>)
    requires Healed(schema, strategy, defaults, c, r) && r.Ok?
    requires Healed(schema, strategy, defaults, r.value, again)
    ensures Valid(schema, r.value) && again == r
  {
  }

  /** The outcome is determined: two healings of one configuration agree. */
  lemma HealingIsDeterministic(schema: Schema, strategy: Strategy, defaults: Config, c: Config,
      r: Result<Config, seq<string>>, q: Result<Config, seq<string>>)
    requires Healed(schema, strategy, defaults, c, r) && Healed(schema, strategy, defaults, c, q)
    ensures r == q
  {
    if r.Ok? && q.Ok? && !Valid(schema, c) {
      assert Missing(schema.required, c + defaults) == [];
      ValidIffNoErrors(schema, c + defaults);
      assert forall key :: key in r.value <==> key in q.value;
      assert r.value == q.value;
    }
  }

  /** Success condition of the strategies that use defaults. */
  lemma HealingSucceedsIff(
      schema: Schema, strategy: Strategy, defaults: Config, c: Config, r: Result<Config, seq<string>>)
    requires Healed(schema, strategy, defaults, c, r)
    ensures strategy == Defaults || strategy == Both ==>
      (r.Ok? <==> forall key | key in schema.required && key !in c :: key in defaults)
    ensures strategy == NoFix || strategy == RemoveInvalid ==>
      (r.Ok? <==> forall key | key in schema.required :: key in c)
    ensures r.Err? ==> forall key :: key in r.error <==>
      key in schema.required && key !in c && ((strategy == Defaults || strategy == Both) ==> key !in defaults)
  {
    ValidIffNoErrors(schema, c + defaults);
    MissingMembers(schema.required, c);
    MissingMembers(schema.required, c + defaults);
  }

  /**
   * What a repaired configuration holds: everything it held, unless the combined strategy drops keys
   * that are neither required nor optional, and the defaults of the required keys it lacked.
   */
  lemma RepairedContents(schema: Schema, strategy: Strategy, defaults: Config, c: Config,
      r: Result<Config, seq<string>>, key: string)
    requires Healed(schema, strategy, defaults, c, r) && r.Ok?
    requires exists missing :: missing in schema.required && missing !in c
    ensures strategy == Defaults || strategy == Both
    ensures key in r.value <==>
      || (key in c && (strategy == Both ==> key in schema.required || key in schema.optional))
      || (key !in c && key in schema.required)
    ensures key in r.value ==> r.value[key] == if key in c then c[key] else defaults[key]
  {
    if key !in c && key in schema.required { assert Valid(schema, r.value); }
  }

  /** Splicing is an associative, right-biased merge with the empty configuration as identity. */
  lemma SpliceLaws(a: Config, b: Config, c: Config)
    ensures (a + b) + c == a + (b + c)
    ensures a + map[] == a && map[] + a == a
    ensures forall key | key in b :: (a + b)[key] == b[key]
  {
  }
}
