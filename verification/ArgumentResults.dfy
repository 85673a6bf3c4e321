/**
 What the options of an application have got after a run, told by the uses alone: every option by its own uses, in
 their order.
 */
module ArgumentResults {
  import opened Bytes
  import opened ConfigValue
  import opened Arguments

  // ---------------------------------------------------------------- what a use adds

  /** What the arguments an option took add to its results, the top of the stack first. */
  ghost function GivenTexts(sp: Spec, taken: seq<Token>): seq<Token>
    decreases |taken|
  {
    if taken == [] then [] else sp.Texts(Last(taken)) + GivenTexts(sp, ButLast(taken))
  }

  /** An empty result that parts the values of one use from those before. */
  ghost function Parting(sp: Spec, before: seq<Token>): seq<Token> {
    if sp.separated && before != [] && Last(before) != [] then sp.Texts([]) else []
  }

  ghost function FlagTexts(sp: Spec, name: Token, value: Token): seq<Token> {
    var flag := sp.flagValue(name, value);
    if flag.Some? then sp.Texts(flag.value) else []
  }

  /** What the token that names an option brings itself: the value of a flag, or what is written behind the name. */
  ghost function OwnTexts(sp: Spec, parts: Parts): seq<Token> {
    if sp.MaxNum() == 0 then FlagTexts(sp, parts.name, parts.value)
    else if parts.value != [] then sp.Texts(parts.value)
    else if parts.rest != [] then sp.Texts(parts.rest)
    else []
  }

  /** The value of a flag counts for none. */
  ghost function OwnCount(sp: Spec, parts: Parts): nat {
    if sp.MaxNum() == 0 then 0 else |OwnTexts(sp, parts)|
  }

  /** What stands in for values that were not given: the value of a flag, or a filler of a group. */
  ghost function Instead(sp: Spec, parts: Parts, collected: nat): seq<Token> {
    (if sp.MinNum() == 0 && sp.MaxNum() > 0 && collected == 0 then FlagTexts(sp, parts.name, []) else [])
    + if sp.MinNum() > 0 && sp.typeMax > 0 && collected % sp.typeMax != 0 then sp.Texts([]) else []
  }

  ghost predicate Concerns(use: Use, o: nat) {
    !use.Leftover? && use.option == o
  }

  /** What a use adds to the results of its option. */
  ghost function Adds(sp: Spec, use: Use, before: seq<Token>): seq<Token>
    requires !use.Leftover?
  {
    match use
    case Positional(_, token) => Parting(sp, before) + sp.Texts(token)
    case Named(_, _, parts, taken, _, _) =>
      var given := GivenTexts(sp, taken);
      Parting(sp, before) + OwnTexts(sp, parts) + given + Instead(sp, parts, OwnCount(sp, parts) + |given|)
  }

  /** The results of one option after some uses. */
  ghost function ResultsOf(cfg: Settings, o: nat, before: seq<Token>, uses: seq<Use>): seq<Token>
    requires o < |cfg.options|
    decreases |uses|
  {
    if uses == [] then before
    else
      var r := ResultsOf(cfg, o, before, ButLast(uses));
      if Concerns(Last(uses), o) then r + Adds(cfg.options[o], Last(uses), r) else r
  }

  lemma {:induction false} ResultsOfConcat(cfg: Settings, o: nat, before: seq<Token>, u: seq<Use>, v: seq<Use>)
    requires o < |cfg.options|
    ensures ResultsOf(cfg, o, before, u + v) == ResultsOf(cfg, o, ResultsOf(cfg, o, before, u), v)
    decreases |v|
  {
    hide Adds, Concerns;
    if v == [] {
      assert u + v == u;
    } else {
      assert ButLast(u + v) == u + ButLast(v) && Last(u + v) == Last(v);
      ResultsOfConcat(cfg, o, before, u, ButLast(v));
    }
  }

  /** Without a use of its own an option has what it had; with any, that comes first. */
  lemma {:induction false} ResultsOfGrows(cfg: Settings, o: nat, before: seq<Token>, uses: seq<Use>)
    requires o < |cfg.options|
    ensures before <= ResultsOf(cfg, o, before, uses)
    ensures (forall u <- uses :: !Concerns(u, o)) ==> ResultsOf(cfg, o, before, uses) == before
    decreases |uses|
  {
    hide Adds, Concerns;
    if uses != [] {
      ResultsOfGrows(cfg, o, before, ButLast(uses));
      assert forall u <- ButLast(uses) :: u in uses;
      assert Last(uses) in uses;
    }
  }

  // ---------------------------------------------------------------- the steps of an option

  lemma {:induction false} GivenConcat(sp: Spec, a: seq<Token>, b: seq<Token>)
    ensures GivenTexts(sp, a + b) == GivenTexts(sp, b) + GivenTexts(sp, a)
    decreases |b|
  {
    if b == [] {
      assert a + b == a;
    } else {
      assert ButLast(a + b) == a + ButLast(b) && Last(a + b) == Last(b);
      GivenConcat(sp, a, ButLast(b));
    }
  }

  /** The option has got the texts of the arguments that are no longer pending, counted, and nothing else changed. */
  ghost predicate Gave(cfg: Settings, o: nat, before: Progress, after: Progress) {
    && before.state.Fits(cfg) && after.state.Fits(cfg) && o < |cfg.options| && Left(after.state, before.state)
    && var had, given := before.state.results,
      GivenTexts(cfg.options[o], before.state.args[|after.state.args|..]);
    && after.state.results == had[o := had[o] + given]
    && after.collected == before.collected + |given|
  }

  lemma GaveNothing(cfg: Settings, o: nat, p: Progress)
    requires p.state.Fits(cfg) && o < |cfg.options|
    ensures Gave(cfg, o, p, p)
  {
    assert p.state.results[o] + [] == p.state.results[o];
  }

  /** The option is given the argument on top of the stack. */
  ghost function TakeTop(cfg: Settings, o: nat, p: Progress): (r: Progress)
    requires p.state.Fits(cfg) && o < |cfg.options| && p.state.args != []
    ensures r.state.Fits(cfg) && |r.state.args| < |p.state.args|
  {
    GiveCounted(cfg, p.(state := p.state.(args := ButLast(p.state.args))), o, Last(p.state.args))
  }

  lemma GaveOne(cfg: Settings, o: nat, p: Progress, after: Progress)
    requires p.state.Fits(cfg) && o < |cfg.options| && p.state.args != []
    requires Gave(cfg, o, TakeTop(cfg, o, p), after)
    ensures Gave(cfg, o, p, after)
  {
    hide Spec.Texts;
    var s := p.state;
    var sp, k := cfg.options[o], |after.state.args|;
    LeftTwice(after.state, s);
    assert s.args[k..] == ButLast(s.args)[k..] + [Last(s.args)];
    assert ButLast(s.args[k..]) == ButLast(s.args)[k..];
    AddedTwice(s.results, o, sp.Texts(Last(s.args)), GivenTexts(sp, ButLast(s.args)[k..]));
  }

  lemma GaveTwice(cfg: Settings, o: nat, p: Progress, mid: Progress, after: Progress)
    requires Gave(cfg, o, p, mid) && Gave(cfg, o, mid, after)
    ensures Gave(cfg, o, p, after)
  {
    hide GivenTexts;
    var sp, k, m := cfg.options[o], |after.state.args|, |mid.state.args|;
    TakenTwice(p.state.args, m, k);
    GivenConcat(sp, mid.state.args[k..], p.state.args[m..]);
    AddedTwice(p.state.results, o, GivenTexts(sp, p.state.args[m..]), GivenTexts(sp, mid.state.args[k..]));
  }

  lemma TakenTwice(args: seq<Token>, m: nat, k: nat)
    requires k <= m <= |args|
    ensures args[..m][..k] == args[..k] && args[k..] == args[..m][k..] + args[m..]
  {
  }

  lemma AddedTwice(results: seq<seq<Token>>, o: nat, one: seq<Token>, more: seq<Token>)
    requires o < |results|
    ensures results[o := results[o] + one][o := results[o] + one + more] == results[o := results[o] + (one + more)]
  {
    assert (results[o] + one) + more == results[o] + (one + more);
  }

  lemma {:induction false} GatherGives(cfg: Settings, p: Progress, o: nat, least: nat)
    requires p.state.Fits(cfg) && o < |cfg.options|
    ensures Gave(cfg, o, p, Gather(cfg, p, o, least))
    decreases |p.state.args|
  {
    hide Gave, GiveCounted;
    if least > p.collected && p.state.args != [] {
      GatherGives(cfg, TakeTop(cfg, o, p), o, least);
      GaveOne(cfg, o, p, Gather(cfg, p, o, least));
    } else {
      GaveNothing(cfg, o, p);
    }
  }

  lemma {:induction false} TakeOptionalGives(cfg: Settings, p: Progress, o: nat, reserved: nat)
    requires p.state.Fits(cfg) && o < |cfg.options|
    ensures Gave(cfg, o, p, TakeOptional(cfg, p, o, reserved))
    decreases |p.state.args|
  {
    hide Gave, GiveCounted, Recognize;
    if Takes(cfg, p, o, reserved) {
      TakeOptionalGives(cfg, TakeTop(cfg, o, p), o, reserved);
      GaveOne(cfg, o, p, TakeOptional(cfg, p, o, reserved));
    } else {
      GaveNothing(cfg, o, p);
    }
  }

  lemma TakenGives(cfg: Settings, p: Progress, o: nat)
    requires p.state.Fits(cfg) && o < |cfg.options|
    ensures Gave(cfg, o, p, Taken(cfg, p, o))
  {
    hide TakeOptional, Remaining, Gave, WantsMore;
    TakeOptionalGives(cfg, p, o, Remaining(cfg.options, p.state.results));
    GaveNothing(cfg, o, p);
  }

  /** The results of one option have got something behind them, and no other has changed. */
  ghost predicate Behind(o: nat, before: seq<seq<Token>>, after: seq<seq<Token>>, more: seq<Token>) {
    o < |before| && after == before[o := before[o] + more]
  }

  lemma BehindTwice(o: nat, a: seq<seq<Token>>, b: seq<seq<Token>>, c: seq<seq<Token>>, u: seq<Token>, v: seq<Token>)
    requires Behind(o, a, b, u) && Behind(o, b, c, v)
    ensures Behind(o, a, c, u + v)
  {
    AddedTwice(a, o, u, v);
  }

  lemma PartedAdds(cfg: Settings, s: State, o: nat)
    requires s.Fits(cfg) && o < |cfg.options|
    ensures Behind(o, s.results, Parted(cfg, s, o).results, Parting(cfg.options[o], s.results[o]))
  {
    hide Spec.Texts;
    assert s.results[o] + [] == s.results[o];
  }

  lemma OwnAdds(cfg: Settings, s: State, o: nat, parts: Parts)
    requires s.Fits(cfg) && o < |cfg.options|
    ensures var r := Own(cfg, s, o, parts);
      r.Some? ==> r.value.collected == OwnCount(cfg.options[o], parts)
    ensures var r := Own(cfg, s, o, parts);
      r.Some? ==> Behind(o, s.results, r.value.state.results, OwnTexts(cfg.options[o], parts))
  {
    hide Spec.Texts, Spec.MaxNum;
    assert s.results[o] + [] == s.results[o];
  }

  lemma EndingAdds(cfg: Settings, got: Progress, o: nat, parts: Parts)
    requires got.state.Fits(cfg) && o < |cfg.options| && got.collected <= Taken(cfg, got, o).collected
    ensures var r, all := Ending(cfg, got, o, parts), Taken(cfg, got, o);
      r.Some? ==> Behind(o, all.state.results, r.value.results, Instead(cfg.options[o], parts, all.collected))
  {
    hide Taken, RestLeft, EndsList, Spec.Texts, Spec.MaxNum, Spec.MinNum;
    var had := Taken(cfg, got, o).state.results[o];
    assert had + [] == had && had + ([] + []) == had;
    var sp := cfg.options[o];
    assert forall x: seq<Token> :: [] + x == x && x + [] == x;
  }

  /** The results of an option after its step are those its use adds; no other option has changed. */
  lemma OptionResults(cfg: Settings, s: State, o: nat, parts: Parts)
    requires s.Fits(cfg) && o < |cfg.options| && s.args != []
    ensures var r := ParseOption(cfg, s, o, parts);
      r.Some? ==> var (t, use) := r.value;
        Concerns(use, o) && Behind(o, s.results, t.results, Adds(cfg.options[o], use, s.results[o]))
  {
    hide Own, Parted, Gather, Taken, Ending, WantsMore, EndsList, RestLeft, Gave, Behind, Parting, OwnTexts, OwnCount,
      Instead, GivenTexts, Spec.MinNum;
    var r, popped := ParseOption(cfg, s, o, parts), s.(args := ButLast(s.args));
    if r.Some? {
      var (t, use) := r.value;
      var sp, parted := cfg.options[o], Parted(cfg, popped, o);
      PartedAdds(cfg, popped, o);
      OwnAdds(cfg, parted, o, parts);
      OwnLeaves(cfg, popped, o, parts);
      var own := Own(cfg, parted, o, parts).value;
      var got := Gather(cfg, own, o, sp.MinNum());
      var all := Taken(cfg, got, o);
      GatherGives(cfg, own, o, sp.MinNum());
      TakenGives(cfg, got, o);
      GaveTwice(cfg, o, own, got, all);
      GaveBehind(cfg, o, own, all);
      GaveMore(cfg, o, got, all);
      EndingAdds(cfg, got, o, parts);
      var parting, given := Parting(sp, s.results[o]), GivenTexts(sp, use.taken);
      BehindTwice(o, s.results, parted.results, own.state.results, parting, OwnTexts(sp, parts));
      BehindTwice(o, s.results, own.state.results, all.state.results, parting + OwnTexts(sp, parts), given);
      BehindTwice(o, s.results, all.state.results, t.results, parting + OwnTexts(sp, parts) + given,
                  Instead(sp, parts, all.collected));
    }
  }

  lemma GaveBehind(cfg: Settings, o: nat, p: Progress, after: Progress)
    requires Gave(cfg, o, p, after)
    ensures |after.state.args| <= |p.state.args|
    ensures var given := GivenTexts(cfg.options[o], p.state.args[|after.state.args|..]);
      Behind(o, p.state.results, after.state.results, given) && after.collected == p.collected + |given|
  {
  }

  lemma GaveMore(cfg: Settings, o: nat, p: Progress, after: Progress)
    requires Gave(cfg, o, p, after)
    ensures p.collected <= after.collected
  {
  }

  // ---------------------------------------------------------------- whole runs

  /** Every option has what its uses give it. */
  ghost predicate Replays(cfg: Settings, before: seq<seq<Token>>, after: seq<seq<Token>>, uses: seq<Use>) {
    && |before| == |after| == |cfg.options|
    && forall o :: 0 <= o < |before| ==> after[o] == ResultsOf(cfg, o, before[o], uses)
  }

  lemma ReplaysOne(cfg: Settings, o: nat, before: seq<seq<Token>>, after: seq<seq<Token>>, use: Use)
    requires |before| == |cfg.options| && Concerns(use, o)
    requires o < |before| && Behind(o, before, after, Adds(cfg.options[o], use, before[o]))
    ensures Replays(cfg, before, after, [use])
  {
    hide Adds;
    forall k | 0 <= k < |before| ensures after[k] == ResultsOf(cfg, k, before[k], [use]) {
      ResultsOfOne(cfg, k, before[k], use);
    }
  }

  lemma ResultsOfOne(cfg: Settings, o: nat, before: seq<Token>, use: Use)
    requires o < |cfg.options|
    ensures ResultsOf(cfg, o, before, [use]) ==
      if Concerns(use, o) then before + Adds(cfg.options[o], use, before) else before
  {
    hide Adds;
    assert ButLast([use]) == [];
  }

  lemma ReplaysNothing(cfg: Settings, results: seq<seq<Token>>, uses: seq<Use>)
    requires |results| == |cfg.options| && forall u <- uses :: u.Leftover?
    ensures Replays(cfg, results, results, uses)
  {
    hide ResultsOf;
    forall o | 0 <= o < |results| ensures ResultsOf(cfg, o, results[o], uses) == results[o] {
      ResultsOfGrows(cfg, o, results[o], uses);
    }
  }

  lemma ReplaysTwice(cfg: Settings, a: seq<seq<Token>>, b: seq<seq<Token>>, c: seq<seq<Token>>,
                     u: seq<Use>, v: seq<Use>)
    requires Replays(cfg, a, b, u) && Replays(cfg, b, c, v)
    ensures Replays(cfg, a, c, u + v)
  {
    hide ResultsOf;
    forall o | 0 <= o < |a| ensures c[o] == ResultsOf(cfg, o, a[o], u + v) {
      ResultsOfConcat(cfg, o, a[o], u, v);
    }
  }

  /** What a step that throws nothing does to the results. */
  ghost predicate StepReplays(cfg: Settings, s: State, r: Option<(State, seq<Use>)>) {
    r.Some? ==> Replays(cfg, s.results, r.value.0.results, r.value.1)
  }

  lemma ArgReplays(cfg: Settings, s: State, kind: Classifier)
    requires s.Fits(cfg) && s.args != []
    ensures var r := ParseArg(cfg, s, kind);
      r.Some? ==> Replays(cfg, s.results, r.value.0.results, [r.value.1])
  {
    hide ParseOption, PartsOf, FirstMatch, Replays, Behind, Concerns;
    var r, cur := ParseArg(cfg, s, kind), Last(s.args);
    if r.Some? {
      var (t, use) := r.value;
      var parts := PartsOf(kind, cur).value;
      var o := FirstMatch(cfg.options, 0, kind, parts.name);
      if o < |cfg.options| {
        OptionResults(cfg, s, o, parts);
        ReplaysOne(cfg, o, s.results, t.results, use);
      } else if IsNonStandard(cfg, kind, cur) {
        var long := SplitLong([MINUS] + cur).value;
        var q := FirstMatch(cfg.options, 0, Short, long.name);
        OptionResults(cfg, s, q, long);
        ReplaysOne(cfg, q, s.results, t.results, use);
      } else {
        ReplaysNothing(cfg, s.results, [use]);
      }
    }
  }

  lemma {:induction false} LeftoversOnly(s: State)
    ensures forall u <- AllLeftover(s).1 :: u.Leftover?
    decreases |s.args|
  {
    if s.args != [] {
      LeftoversOnly(s.(args := ButLast(s.args), missing := s.missing + [(Unclassified, Last(s.args))]));
    }
  }

  lemma PositionalReplays(cfg: Settings, s: State)
    requires s.Fits(cfg) && s.args != []
    ensures StepReplays(cfg, s, ParsePositional(cfg, s))
  {
    hide PositionalFor, Replays, Spec.Texts, AllLeftover, Parted;
    var r, o, token := ParsePositional(cfg, s), PositionalFor(cfg, s), Last(s.args);
    if o < |cfg.options| {
      PartedAdds(cfg, s, o);
      GiveAdds(cfg, Parted(cfg, s, o), o, token);
      var parting := Parting(cfg.options[o], s.results[o]);
      BehindTwice(o, s.results, Parted(cfg, s, o).results, r.value.0.results, parting, cfg.options[o].Texts(token));
      ReplaysOne(cfg, o, s.results, r.value.0.results, Positional(o, token));
    } else if r.Some? {
      LeftoversOnly(s.(args := ButLast(s.args), missing := s.missing + [(Unclassified, token)]));
      ReplaysNothing(cfg, s.results, r.value.1);
    }
  }

  lemma GiveAdds(cfg: Settings, s: State, o: nat, text: Token)
    requires s.Fits(cfg) && o < |cfg.options|
    ensures Behind(o, s.results, Give(cfg, s, o, text).results, cfg.options[o].Texts(text))
  {
  }

  lemma SingleReplays(cfg: Settings, s: State)
    requires s.Fits(cfg) && s.args != []
    ensures StepReplays(cfg, s, ParseSingle(cfg, s))
  {
    hide ParseArg, ParsePositional, Recognize, Replays;
    var r, kind := ParseSingle(cfg, s), if s.positionalOnly then Unclassified else Recognize(cfg, Last(s.args));
    if kind == PositionalMark {
      ReplaysNothing(cfg, s.results, r.value.1);
    } else if kind == Unclassified {
      PositionalReplays(cfg, s);
    } else {
      ArgReplays(cfg, s, kind);
    }
  }

  /**
   After a run that throws nothing, the results of every option are those it started with, followed by what each of
   its own uses adds, in their order: a parting entry, the value with the name, the arguments it took, and what
   stands in for those it did not get.
   */
  lemma {:induction false} ParseResults(cfg: Settings, s: State)
    requires s.Fits(cfg)
    ensures StepReplays(cfg, s, Parse(cfg, s))
    decreases Pending(s.args)
  {
    hide ParseSingle, Pending, Replays, Parse;
    ParseStep(cfg, s);
    if s.args == [] {
      ReplaysNothing(cfg, s.results, []);
    } else if Parse(cfg, s).Some? {
      SingleShrinks(cfg, s);
      SingleReplays(cfg, s);
      var one := ParseSingle(cfg, s).value;
      var more := Parse(cfg, one.0).value;
      ParseResults(cfg, one.0);
      ReplaysTwice(cfg, s.results, one.0.results, more.0.results, one.1, more.1);
    }
  }

  /** An option that no token of the run is accounted to has the results it started with. */
  lemma ParseKeeps(cfg: Settings, s: State, o: nat)
    requires s.Fits(cfg) && o < |cfg.options|
    ensures var r := Parse(cfg, s); r.Some? ==> s.results[o] <= r.value.0.results[o]
    ensures var r := Parse(cfg, s);
      r.None? || (exists u <- r.value.1 :: Concerns(u, o)) || r.value.0.results[o] == s.results[o]
  {
    hide Parse, ResultsOf, Concerns;
    ParseResults(cfg, s);
    var r := Parse(cfg, s);
    if r.Some? {
      ResultsOfGrows(cfg, o, s.results[o], r.value.1);
    }
  }
}
