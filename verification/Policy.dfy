// Security policy evaluation: rules, decisions and their statistics.
// Conditions are opaque; how a condition evaluates on a context is a parameter of the manager.
module Policy {
  import opened Options
  import opened StableSort
  import opened Bytes
  import opened Decimal

  datatype HookType =
    | FileOpen | FileRead | FileWrite | FileExecute | FilePermission
    | ProcessExec | ProcessFork | ProcessExit | ProcessSetuid | ProcessSetgid
    | SocketCreate | SocketBind | SocketConnect | SocketListen | SocketAccept
    | Mmap | Brk | SyscallEntry | SyscallExit | Capable | Capget | Capset
    | MsgQueue | Semaphore | SharedMemory | DeviceAccess

  datatype Action = Allow | Deny | Audit | SilentDeny

  type Context = map<string, string>

  datatype Decision = Decision(
    hook: HookType, action: Action, reason: string, pid: nat, uid: nat, gid: nat, context: Context)

  datatype Rule<C> = Rule(
    name: string, hook: HookType, conditions: seq<C>, action: Action, priority: nat, description: string)

  datatype Stats = Stats(totalRules: nat, totalDecisions: nat, denied: nat, allowed: nat, audited: nat)

  type Evaluator<!C> = (C, Context) -> bool

  /** All conditions hold. */
  predicate Holds<C>(rule: Rule<C>, evaluate: Evaluator<C>, context: Context) {
    forall k | 0 <= k < |rule.conditions| :: evaluate(rule.conditions[k], context)
  }

  predicate Applies<C>(rule: Rule<C>, evaluate: Evaluator<C>, hook: HookType, context: Context) {
    rule.hook == hook && Holds(rule, evaluate, context)
  }

  method MatchesRule<C>(rule: Rule<C>, evaluate: Evaluator<C>, context: Context) returns (r: bool)
    ensures r <==> Holds(rule, evaluate, context)
    ensures r <==> forall k | 0 <= k < |rule.conditions| :: evaluate(rule.conditions[k], context)
  {
    for k := 0 to |rule.conditions|
      invariant forall j | 0 <= j < k :: evaluate(rule.conditions[j], context)
    {
      if !evaluate(rule.conditions[k], context) {
        return false;
      }
    }
    return true;
  }

  // ----- Which rule wins -----

  function Applicable<C>(rules: seq<Rule<C>>, evaluate: Evaluator<C>, hook: HookType, context: Context): seq<Rule<C>> {
    if rules == [] then []
    else
      Applicable(rules[..|rules| - 1], evaluate, hook, context)
      + (if Applies(rules[|rules| - 1], evaluate, hook, context) then [rules[|rules| - 1]] else [])
  }

  lemma ApplicableStep<C>(rules: seq<Rule<C>>, evaluate: Evaluator<C>, hook: HookType, context: Context, n: nat)
    requires n <= |rules|
    ensures Applicable(rules[..n], evaluate, hook, context) ==
      if n == 0 then []
      else
        Applicable(rules[..n - 1], evaluate, hook, context)
        + (if Applies(rules[n - 1], evaluate, hook, context) then [rules[n - 1]] else [])
  {
    hide Applies;
    if n > 0 { assert rules[..n][..n - 1] == rules[..n - 1]; }
  }

  function PriorityKey<C>(): Rule<C> -> real {
    (rule: Rule<C>) => rule.priority as real
  }

  /** Rule w applies, no applicable rule has a higher priority, and none inserted earlier has the same. */
  ghost predicate Wins<C>(rules: seq<Rule<C>>, evaluate: Evaluator<C>, hook: HookType, context: Context, w: nat) {
    && w < |rules|
    && Applies(rules[w], evaluate, hook, context)
    && (forall k | 0 <= k < |rules| && Applies(rules[k], evaluate, hook, context) ::
          rules[k].priority <= rules[w].priority)
    && (forall k | 0 <= k < w && Applies(rules[k], evaluate, hook, context) ::
          rules[k].priority < rules[w].priority)
  }

  /** One pass, keeping the best so far: index of the winner. */
  function BestRule<C>(rules: seq<Rule<C>>, evaluate: Evaluator<C>, hook: HookType, context: Context): (r: Option<nat>)
    ensures r.Some? ==> Wins(rules, evaluate, hook, context, r.value)
    ensures r.None? ==> forall k | 0 <= k < |rules| :: !Applies(rules[k], evaluate, hook, context)
  {
    if rules == [] then None
    else
      var n := |rules| - 1;
      var best := BestRule(rules[..n], evaluate, hook, context);
      if Applies(rules[n], evaluate, hook, context)
        && (best.None? || rules[best.value].priority < rules[n].priority)
      then Some(n)
      else best
  }

  lemma WinnerUnique<C>(rules: seq<Rule<C>>, evaluate: Evaluator<C>, hook: HookType, context: Context, v: nat, w: nat)
    requires Wins(rules, evaluate, hook, context, v) && Wins(rules, evaluate, hook, context, w)
    ensures v == w
  {
  }

  /** The first applicable rule of each priority, by position. */
  lemma {:induction false} FirstOfPriority<C(!new)>(
      rules: seq<Rule<C>>, evaluate: Evaluator<C>, hook: HookType, context: Context, w: nat)
    requires Wins(rules, evaluate, hook, context, w)
    ensures var s := WithKey(Applicable(rules, evaluate, hook, context), PriorityKey(), rules[w].priority as real);
      s != [] && s[0] == rules[w]
  {
    var n := |rules| - 1;
    var key := PriorityKey<C>();
    var p := rules[w].priority as real;
    if w == n {
      NoneOfPriority(rules[..n], evaluate, hook, context, p);
    } else {
      FirstOfPriority(rules[..n], evaluate, hook, context, w);
    }
    WithKeyConcat(Applicable(rules[..n], evaluate, hook, context),
      if Applies(rules[n], evaluate, hook, context) then [rules[n]] else [], key, p);
  }

  lemma {:induction false} NoneOfPriority<C>(
      rules: seq<Rule<C>>, evaluate: Evaluator<C>, hook: HookType, context: Context, p: real)
    requires forall k | 0 <= k < |rules| && Applies(rules[k], evaluate, hook, context) :: rules[k].priority as real != p
    ensures WithKey(Applicable(rules, evaluate, hook, context), PriorityKey(), p) == []
  {
    if rules != [] {
      var n := |rules| - 1;
      NoneOfPriority(rules[..n], evaluate, hook, context, p);
      WithKeyConcat(Applicable(rules[..n], evaluate, hook, context),
        if Applies(rules[n], evaluate, hook, context) then [rules[n]] else [], PriorityKey(), p);
    }
  }

  lemma {:induction false} ApplicableMembers<C(!new)>(
      rules: seq<Rule<C>>, evaluate: Evaluator<C>, hook: HookType, context: Context)
    ensures forall r ::
      (r in Applicable(rules, evaluate, hook, context) <==> r in rules && Applies(r, evaluate, hook, context))
  {
    if rules != [] {
      var n := |rules| - 1;
      ApplicableMembers(rules[..n], evaluate, hook, context);
      assert rules == rules[..n] + [rules[n]];
    }
  }

  /**
   * Filtering, sorting stably by descending priority and taking the first is the same as the
   * one-pass search, for every stable sort.
   */
  lemma SortedHeadWins<C(!new)>(
      rules: seq<Rule<C>>, evaluate: Evaluator<C>, hook: HookType, context: Context, sorted: seq<Rule<C>>)
    requires IsStableSort(Applicable(rules, evaluate, hook, context), sorted, PriorityKey())
    ensures var best := BestRule(rules, evaluate, hook, context);
      if best.None? then sorted == [] else sorted != [] && sorted[0] == rules[best.value]
  {
    hide Applies, Applicable, WithKey;
    var applicable := Applicable(rules, evaluate, hook, context);
    var best := BestRule(rules, evaluate, hook, context);
    ApplicableMembers(rules, evaluate, hook, context);
    if best.None? {
      NonemptyHasMember(applicable);
      assert |multiset(sorted)| == |multiset(applicable)|;
    } else {
      var w := best.value;
      assert rules[w] in applicable;
      StableSortHead(applicable, sorted, PriorityKey());
      FirstOfPriority(rules, evaluate, hook, context, w);
      assert PriorityKey()(rules[w]) <= PriorityKey()(sorted[0]);
      var k :| 0 <= k < |rules| && rules[k] == sorted[0];
      assert rules[k].priority <= rules[w].priority;
    }
  }

  lemma NonemptyHasMember<T(!new)>(s: seq<T>)
    ensures s != [] ==> exists x :: x in s
  {
    if s != [] { assert s[0] in s; }
  }

  // ----- Decisions -----

  /** An unsigned 32-bit numeral with an optional plus sign; anything else leaves the field at 0. */
  function ParseId(context: Context, key: string): nat {
    if key !in context then 0
    else
      var text := context[key];
      var digits := if text != "" && text[0] == '+' then text[1..] else text;
      if !Ascii(digits) then 0 else ParseDecimal(AsBytes(digits)).GetOr(0)
  }

  predicate Ascii(s: string) { forall i | 0 <= i < |s| :: s[i] as int < 128 }

  function AsBytes(s: string): seq<Byte>
    requires Ascii(s)
  {
    s
  }

  /** A numeral, with or without a plus, gives its value; larger than 32 bits, malformed or absent, 0. */
  lemma IdOfNumeral(context: Context, key: string, n: nat)
    ensures key !in context ==> ParseId(context, key) == 0
    ensures key in context && (context[key] == Numeral(n) || context[key] == "+" + Numeral(n)) ==>
      ParseId(context, key) == if n <= 4294967295 then n else 0
    ensures key in context && context[key] == "" ==> ParseId(context, key) == 0
    ensures key in context && (exists i | 1 <= i < |context[key]| :: !('0' <= context[key][i] <= '9')) ==>
      ParseId(context, key) == 0
  {
    NumeralValue(n);
    CheckedFoldExact(Numeral(n));
    assert ("+" + Numeral(n))[1..] == Numeral(n);
  }

  /** Rule k is for this hook and all of its conditions hold. */
  ghost predicate Fits<C>(rules: seq<Rule<C>>, evaluate: Evaluator<C>, hook: HookType, context: Context, k: nat) {
    && k < |rules| && rules[k].hook == hook
    && forall i | 0 <= i < |rules[k].conditions| :: evaluate(rules[k].conditions[i], context)
  }

  /**
   * Who decides: a fitting rule such that no other fitting one has a higher priority and no earlier
   * one the same; it gives action, reason and the three ids.  Without any the operation is allowed.
   */
  lemma DecisionIff<C>(rules: seq<Rule<C>>, evaluate: Evaluator<C>, hook: HookType, context: Context, w: nat)
    ensures var d := Decide(rules, evaluate, hook, context);
      && d.hook == hook && d.context == context
      && ((forall k: nat :: !Fits(rules, evaluate, hook, context, k)) ==>
            d.action == Allow && d.reason == "No matching rule" && d.pid == d.uid == d.gid == 0)
      && (Fits(rules, evaluate, hook, context, w)
          && (forall k: nat | Fits(rules, evaluate, hook, context, k) ::
                || rules[k].priority < rules[w].priority
                || (rules[k].priority == rules[w].priority && w <= k)) ==>
            && d.action == rules[w].action && d.reason == rules[w].description
            && d.pid == ParseId(context, "pid") && d.uid == ParseId(context, "uid") && d.gid == ParseId(context, "gid"))
  {
    hide BestRule, ParseId;
    var best := BestRule(rules, evaluate, hook, context);
    forall k: nat ensures Fits(rules, evaluate, hook, context, k) <==>
      k < |rules| && Applies(rules[k], evaluate, hook, context) { }
    if Fits(rules, evaluate, hook, context, w) && Wins(rules, evaluate, hook, context, w) {
      WinnerDecides(rules, evaluate, hook, context, w);
    } else if best.None? {
      NobodyDecides(rules, evaluate, hook, context);
    } else {
      assert Fits(rules, evaluate, hook, context, best.value);
    }
  }

  /** The decision for the winning rule, or the default one. */
  function Decide<C>(rules: seq<Rule<C>>, evaluate: Evaluator<C>, hook: HookType, context: Context): Decision {
    match BestRule(rules, evaluate, hook, context)
    case Some(w) => DecisionBy(rules[w], hook, context)
    case None => Decision(hook, Allow, "No matching rule", 0, 0, 0, context)
  }

  function DecisionBy<C>(rule: Rule<C>, hook: HookType, context: Context): Decision {
    Decision(hook, rule.action, rule.description,
      ParseId(context, "pid"), ParseId(context, "uid"), ParseId(context, "gid"), context)
  }

  lemma DecideUnfolds<C>(rules: seq<Rule<C>>, evaluate: Evaluator<C>, hook: HookType, context: Context)
    ensures var best := BestRule(rules, evaluate, hook, context);
      Decide(rules, evaluate, hook, context) ==
        if best.Some? then DecisionBy(rules[best.value], hook, context)
        else Decision(hook, Allow, "No matching rule", 0, 0, 0, context)
  {
    hide BestRule, DecisionBy;
  }

  /** Any winner decides. */
  lemma WinnerDecides<C>(rules: seq<Rule<C>>, evaluate: Evaluator<C>, hook: HookType, context: Context, w: nat)
    requires Wins(rules, evaluate, hook, context, w)
    ensures BestRule(rules, evaluate, hook, context) == Some(w)
    ensures Decide(rules, evaluate, hook, context) == DecisionBy(rules[w], hook, context)
  {
    var best := BestRule(rules, evaluate, hook, context);
    if best.Some? { WinnerUnique(rules, evaluate, hook, context, w, best.value); }
  }

  function Matched<C>(rules: seq<Rule<C>>, evaluate: Evaluator<C>, hook: HookType, context: Context): bool {
    BestRule(rules, evaluate, hook, context).Some?
  }

  /** A rule of no higher priority added last changes no decision that a rule already made. */
  lemma AddingLowerRule<C>(rules: seq<Rule<C>>, rule: Rule<C>, evaluate: Evaluator<C>, hook: HookType, context: Context)
    requires var best := BestRule(rules, evaluate, hook, context);
      best.Some? && rule.priority <= rules[best.value].priority
    ensures Decide(rules + [rule], evaluate, hook, context) == Decide(rules, evaluate, hook, context)
  {
    hide Applies;
    assert (rules + [rule])[..|rules|] == rules;
  }

  /** Removing any rule but the winner changes no decision. */
  lemma RemovingLoser<C>(rules: seq<Rule<C>>, loser: nat, evaluate: Evaluator<C>, hook: HookType, context: Context)
    requires loser < |rules|
    requires BestRule(rules, evaluate, hook, context) != Some(loser)
    ensures Decide(rules[..loser] + rules[loser + 1..], evaluate, hook, context)
      == Decide(rules, evaluate, hook, context)
  {
    hide Applies, BestRule, Decide, DecisionBy, Wins;
    var best := BestRule(rules, evaluate, hook, context);
    if best.Some? {
      var v := best.value;
      var w := if v < loser then v else v - 1;
      assert Wins(rules, evaluate, hook, context, v);
      WinnerInRange(rules, evaluate, hook, context, v);
      WinnerSurvives(rules, loser, evaluate, hook, context, w);
      WinnerDecides(rules, evaluate, hook, context, v);
      WinnerDecides(rules[..loser] + rules[loser + 1..], evaluate, hook, context, w);
    } else {
      NobodySurvives(rules, loser, evaluate, hook, context);
      NobodyDecides(rules, evaluate, hook, context);
      NobodyDecides(rules[..loser] + rules[loser + 1..], evaluate, hook, context);
    }
  }

  lemma WinnerInRange<C>(rules: seq<Rule<C>>, evaluate: Evaluator<C>, hook: HookType, context: Context, w: nat)
    requires Wins(rules, evaluate, hook, context, w)
    ensures w < |rules|
  {
  }

  lemma NobodySurvives<C>(rules: seq<Rule<C>>, loser: nat, evaluate: Evaluator<C>, hook: HookType, context: Context)
    requires loser < |rules| && BestRule(rules, evaluate, hook, context).None?
    ensures BestRule(rules[..loser] + rules[loser + 1..], evaluate, hook, context).None?
  {
    hide Applies, BestRule;
    var fewer := rules[..loser] + rules[loser + 1..];
    var other := BestRule(fewer, evaluate, hook, context);
    forall k | 0 <= k < |fewer| ensures !Applies(fewer[k], evaluate, hook, context) {
      assert fewer[k] == rules[Shift(loser, k)];
    }
  }

  lemma NobodyDecides<C>(rules: seq<Rule<C>>, evaluate: Evaluator<C>, hook: HookType, context: Context)
    requires BestRule(rules, evaluate, hook, context).None?
    ensures Decide(rules, evaluate, hook, context) == Decision(hook, Allow, "No matching rule", 0, 0, 0, context)
  {
  }

  /** Where element k of the shortened list was before. */
  function Shift(removed: nat, k: nat): nat { if k < removed then k else k + 1 }

  lemma WinnerSurvives<C>(
      rules: seq<Rule<C>>, loser: nat, evaluate: Evaluator<C>, hook: HookType, context: Context, w: nat)
    requires loser < |rules| && Wins(rules, evaluate, hook, context, Shift(loser, w))
    ensures Wins(rules[..loser] + rules[loser + 1..], evaluate, hook, context, w)
  {
    hide Applies;
    var fewer := rules[..loser] + rules[loser + 1..];
    forall k | 0 <= k < |fewer| && Applies(fewer[k], evaluate, hook, context)
      ensures fewer[k].priority <= fewer[w].priority && (k < w ==> fewer[k].priority < fewer[w].priority)
    {
      assert fewer[k] == rules[Shift(loser, k)] && fewer[w] == rules[Shift(loser, w)];
    }
  }

  // ----- Statistics -----

  datatype Column = Denied | Allowed | Audited

  function ColumnOf(a: Action): Column {
    match a case Deny => Denied case SilentDeny => Denied case Allow => Allowed case Audit => Audited
  }

  function CountColumn(decisions: seq<Decision>, column: Column): nat {
    if decisions == [] then 0
    else
      var n := |decisions| - 1;
      CountColumn(decisions[..n], column) + (if ColumnOf(decisions[n].action) == column then 1 else 0)
  }

  /** The columns by action: silent denials count as denials. */
  lemma {:induction false} ColumnsByAction(decisions: seq<Decision>, d: Decision)
    ensures CountColumn([], Denied) == CountColumn([], Allowed) == CountColumn([], Audited) == 0
    ensures var all := decisions + [d];
      && CountColumn(all, Denied) == CountColumn(decisions, Denied) + (if d.action in {Deny, SilentDeny} then 1 else 0)
      && CountColumn(all, Allowed) == CountColumn(decisions, Allowed) + (if d.action == Allow then 1 else 0)
      && CountColumn(all, Audited) == CountColumn(decisions, Audited) + (if d.action == Audit then 1 else 0)
  {
    assert (decisions + [d])[..|decisions|] == decisions;
  }

  /** Every recorded decision is counted in exactly one column. */
  lemma {:induction false} CountsAddUp(decisions: seq<Decision>)
    ensures CountColumn(decisions, Denied) + CountColumn(decisions, Allowed) + CountColumn(decisions, Audited)
      == |decisions|
  {
    if decisions != [] { CountsAddUp(decisions[..|decisions| - 1]); }
  }

  /** The most recent entries of the log are exactly these decisions. */
  ghost predicate EndsIn(log: seq<Decision>, decisions: seq<Decision>) {
    |decisions| <= |log| && log[|log| - |decisions|..] == decisions
  }

  class LsmManager<!C(!new)> {
    const evaluate: Evaluator<C>
    var rules: seq<Rule<C>>
    var decisions: seq<Decision>
    const auditLog: bool
    /** The decisions written to the log file, which is never cleared. */
    var log: seq<Decision>
    /** Evaluations since the last clear that matched a rule. */
    ghost var matched: nat

    ghost predicate Valid()
      reads this
    {
      |decisions| == matched && if auditLog then EndsIn(log, decisions) else log == []
    }

    constructor (evaluate: Evaluator<C>, auditLog: bool)
      ensures Valid() && rules == [] && decisions == [] && log == []
      ensures this.evaluate == evaluate && this.auditLog == auditLog
    {
      this.evaluate := evaluate;
      this.auditLog := auditLog;
      rules, decisions, log, matched := [], [], [], 0;
    }

    method AddRule(rule: Rule<C>)
      requires Valid()
      modifies this
      ensures Valid() && rules == old(rules) + [rule] && decisions == old(decisions) && log == old(log)
    {
      rules := rules + [rule];
    }

    /** Removes the first rule of this name. */
    method RemoveRule(name: string) returns (removed: bool)
      requires Valid()
      modifies this
      ensures Valid() && decisions == old(decisions) && log == old(log)
      ensures removed <==> exists k | 0 <= k < |old(rules)| :: old(rules)[k].name == name
      ensures !removed ==> rules == old(rules)
      ensures removed ==> exists k | 0 <= k < |old(rules)| && old(rules)[k].name == name ::
        (forall j | 0 <= j < k :: old(rules)[j].name != name) && rules == old(rules)[..k] + old(rules)[k + 1..]
    {
      var i := 0;
      while i < |rules| && rules[i].name != name
        invariant 0 <= i <= |rules|
        invariant forall j | 0 <= j < i :: rules[j].name != name
      {
        i := i + 1;
      }
      removed := i < |rules|;
      if removed {
        rules := rules[..i] + rules[i + 1..];
      }
    }

    /**
     * The winner decides, and the decision is recorded and logged; without a winner the operation is
     * allowed and nothing is recorded or logged.
     */
    method EvaluateHook(hook: HookType, context: Context) returns (decision: Decision)
      requires Valid()
      modifies this
      ensures Valid() && rules == old(rules)
      ensures decision == Decide(rules, evaluate, hook, context)
      ensures decisions == old(decisions) + if Matched(rules, evaluate, hook, context) then [decision] else []
      ensures matched == old(matched) + if Matched(rules, evaluate, hook, context) then 1 else 0
      ensures log == old(log) + if auditLog && Matched(rules, evaluate, hook, context) then [decision] else []
    {
      hide Applies, ParseId, BestRule, Applicable, IsStableSort, EndsIn;
      var sorted := MatchingRules(hook, context);
      SortedHeadWins(rules, evaluate, hook, context, sorted);
      DecideUnfolds(rules, evaluate, hook, context);
      if |sorted| > 0 {
        var rule := sorted[0];
        decision := Decision(hook, rule.action, rule.description,
          ParseId(context, "pid"), ParseId(context, "uid"), ParseId(context, "gid"), context);
        RecordDecision(decision);
        return;
      }
      decision := Decision(hook, Allow, "No matching rule", 0, 0, 0, context);
    }

    /** The applicable rules, stably sorted by descending priority. */
    method MatchingRules(hook: HookType, context: Context) returns (sorted: seq<Rule<C>>)
      ensures IsStableSort(Applicable(rules, evaluate, hook, context), sorted, PriorityKey())
    {
      hide Applies, Applicable, SortDescending;
      ApplicableStep(rules, evaluate, hook, context, 0);
      var matching: seq<Rule<C>> := [];
      for k := 0 to |rules|
        invariant matching == Applicable(rules[..k], evaluate, hook, context)
      {
        ApplicableStep(rules, evaluate, hook, context, k + 1);
        var applies := CheckRule(rules[k], hook, context);
        if applies {
          matching := matching + [rules[k]];
        }
      }
      assert rules[..|rules|] == rules;
      sorted := SortDescending(matching, PriorityKey());
      SortIsStable(matching, PriorityKey());
    }

    method RecordDecision(decision: Decision)
      requires Valid()
      modifies `decisions, `log, `matched
      ensures Valid() && decisions == old(decisions) + [decision] && matched == old(matched) + 1
      ensures log == old(log) + if auditLog then [decision] else []
    {
      decisions := decisions + [decision];
      matched := matched + 1;
      if auditLog {
        log := log + [decision];
      }
    }

    method CheckRule(rule: Rule<C>, hook: HookType, context: Context) returns (r: bool)
      ensures r <==> Applies(rule, evaluate, hook, context)
    {
      if rule.hook != hook {
        return false;
      }
      r := MatchesRule(rule, evaluate, context);
    }

    /** The most recent decisions first. */
    method ListDecisions(limit: nat) returns (r: seq<Decision>)
      ensures |r| == if |decisions| <= limit then |decisions| else limit
      ensures forall k | 0 <= k < |r| :: r[k] == decisions[|decisions| - 1 - k]
    {
      r := [];
      while |r| < limit && |r| < |decisions|
        invariant |r| <= limit && |r| <= |decisions|
        invariant forall k | 0 <= k < |r| :: r[k] == decisions[|decisions| - 1 - k]
      {
        r := r + [decisions[|decisions| - 1 - |r|]];
      }
    }

    method ClearDecisions()
      requires Valid()
      modifies this
      ensures Valid() && decisions == [] && matched == 0 && rules == old(rules) && log == old(log)
    {
      decisions := [];
      matched := 0;
    }

    /** The three columns add up to the number of matched evaluations since the last clear. */
    method GetStats() returns (r: Stats)
      requires Valid()
      ensures r == Stats(|rules|, |decisions|, CountColumn(decisions, Denied),
        CountColumn(decisions, Allowed), CountColumn(decisions, Audited))
      ensures r.denied + r.allowed + r.audited == r.totalDecisions == matched
    {
      var denied, allowed, audited := 0, 0, 0;
      for k := 0 to |decisions|
        invariant denied == CountColumn(decisions[..k], Denied)
        invariant allowed == CountColumn(decisions[..k], Allowed)
        invariant audited == CountColumn(decisions[..k], Audited)
      {
        assert decisions[..k + 1][..k] == decisions[..k];
        match decisions[k].action {
          case Deny => denied := denied + 1;
          case SilentDeny => denied := denied + 1;
          case Allow => allowed := allowed + 1;
          case Audit => audited := audited + 1;
        }
      }
      assert decisions[..|decisions|] == decisions;
      CountsAddUp(decisions);
      r := Stats(|rules|, |decisions|, denied, allowed, audited);
    }
  }
}
