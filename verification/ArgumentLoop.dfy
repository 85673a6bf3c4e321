/** The argument loop itself: an application whose options, leftovers and pending arguments change step by step. */
module ArgumentLoop {
  import opened Bytes
  import opened Arguments
  import opened ArgumentResults
  import opened ArgumentStory
  import V = ConfigValue
  import Bits
  import Unicode

  class App {
    const cfg: Settings
    var args: seq<Token>
    var results: seq<seq<Token>>
    var missing: seq<(Classifier, Token)>
    var order: seq<nat>
    var positionalOnly: bool
    ghost var uses: seq<Use>

    ghost predicate Valid()
      reads this
    {
      cfg.Valid() && |results| == |cfg.options|
    }

    function Now(): State
      reads this
    {
      State(args, results, missing, order, positionalOnly)
    }

    constructor (cfg: Settings, args: seq<Token>)
      requires cfg.Valid()
      ensures this.cfg == cfg && Valid() && uses == []
      ensures Now() == State(args, seq(|cfg.options|, _ => []), [], [], false)
    {
      this.cfg, this.args, this.results := cfg, args, seq(|cfg.options|, _ => []);
      this.missing, this.order, this.positionalOnly, this.uses := [], [], false, [];
    }

    // -------------------------------------------------------------- looking things up

    method Find(kind: Classifier, name: Token) returns (o: nat)
      ensures o == FirstMatch(cfg.options, 0, kind, name)
    {
      o := 0;
      while o < |cfg.options| && !Matches(cfg.options[o], kind, name)
        invariant o <= |cfg.options|
        invariant FirstMatch(cfg.options, 0, kind, name) == FirstMatch(cfg.options, o, kind, name)
      {
        o := o + 1;
      }
    }

    method Times(a: nat, b: nat) returns (r: nat)
      requires a <= INT_MAX && b <= INT_MAX
      ensures r == Product(a, b)
    {
      hide C.IntType.Holds;
      ghost var product: nat := a * b;
      IntHolds(a);
      IntHolds(b);
      IntHolds(product);
      var ok, ab := C.Multiply(C.Signed(32), a, b);
      r := if ok then ab else UNLIMITED;
    }

    method Most(o: nat) returns (r: nat)
      requires Valid() && o < |results|
      ensures r == cfg.options[o].MaxNum()
    {
      hide Product;
      var sp := cfg.options[o];
      r := Times(sp.typeMax, sp.expectedMax);
      if r >= UNLIMITED / 16 && !sp.allowExtra {
        r := Times(sp.typeMax, sp.expectedMin);
      }
    }

    method CountRemaining() returns (n: nat)
      requires Valid()
      ensures n == Remaining(cfg.options, results)
    {
      n := 0;
      for i := 0 to |cfg.options|
        invariant n == Remaining(cfg.options[..i], results[..i])
      {
        assert ButLast(cfg.options[..i + 1]) == cfg.options[..i] && ButLast(results[..i + 1]) == results[..i];
        var sp, count := cfg.options[i], |results[i]|;
        if sp.positional && sp.required && count < sp.ItemsMin() {
          n := n + (sp.ItemsMin() - count);
        }
      }
      assert cfg.options[..|cfg.options|] == cfg.options && results[..|results|] == results;
    }

    // -------------------------------------------------------------- one option by its name

    method AddText(o: nat, text: Token) returns (count: nat)
      requires Valid() && o < |results|
      modifies this`results, this`order
      ensures Now() == Give(cfg, old(Now()), o, text)
      ensures count == |cfg.options[o].Texts(text)|
    {
      hide V.Results;
      var sp := cfg.options[o];
      var longer;
      longer, count := V.AddResult(text, results[o], sp.Spreads(), sp.delimiter);
      results := results[o := longer];
      order := order + [o];
    }

    method AddEmpty(o: nat)
      requires Valid() && o < |results|
      modifies this`results
      ensures Now() == Fill(cfg, old(Now()), o)
    {
      hide V.Results;
      var sp := cfg.options[o];
      var longer, count := V.AddResult([], results[o], sp.Spreads(), sp.delimiter);
      results := results[o := longer];
    }

    method Part(o: nat)
      requires Valid() && o < |results|
      modifies this`results
      ensures Now() == Parted(cfg, old(Now()), o)
    {
      hide Fill;
      if cfg.options[o].separated {
        if results[o] != [] && Last(results[o]) != [] {
          AddEmpty(o);
        }
      }
    }

    method TakeOwn(o: nat, parts: Parts) returns (ok: bool, collected: nat)
      requires Valid() && o < |results|
      modifies this`results, this`order
      ensures var r := Own(cfg, old(Now()), o, parts);
        ok == r.Some? && (ok ==> r.value == Progress(Now(), collected))
      ensures |results| == old(|results|)
    {
      hide Product, Give;
      var sp := cfg.options[o];
      var most := Most(o);
      ok, collected := true, 0;
      if most == 0 {
        var flag := sp.flagValue(parts.name, parts.value);
        if flag.None? {
          return false, 0;
        }
        var _ := AddText(o, flag.value);
      } else if parts.value != [] {
        collected := AddText(o, parts.value);
      } else if parts.rest != [] {
        collected := AddText(o, parts.rest);
      }
    }

    method GatherLeast(o: nat, least: nat, start: nat) returns (collected: nat)
      requires Valid() && o < |results|
      modifies this`args, this`results, this`order
      ensures Progress(Now(), collected) == Gather(cfg, Progress(old(Now()), start), o, least)
      ensures |results| == old(|results|)
    {
      hide Give, Spec.Texts;
      collected := start;
      while least > collected && args != []
        invariant Valid()
        invariant Gather(cfg, Progress(old(Now()), start), o, least)
          == Gather(cfg, Progress(Now(), collected), o, least)
        decreases |args|
      {
        var current := args[|args| - 1];
        args := args[..|args| - 1];
        GiveKeeps(cfg, Now(), o, current);
        var count := AddText(o, current);
        collected := collected + count;
      }
    }

    method TakeMore(o: nat, start: nat) returns (collected: nat)
      requires Valid() && o < |results|
      modifies this`args, this`results, this`order
      ensures Progress(Now(), collected)
        == TakeOptional(cfg, Progress(old(Now()), start), o, Remaining(cfg.options, old(results)))
      ensures |results| == old(|results|)
    {
      hide Give, Spec.Texts, Recognize, Spec.MaxNum, Remaining;
      var sp := cfg.options[o];
      var most := Most(o);
      var reserved := CountRemaining();
      collected := start;
      ghost var all := TakeOptional(cfg, Progress(old(Now()), start), o, reserved);
      while (collected < most || sp.allowExtra) && args != [] && Recognize(cfg, args[|args| - 1]) == Unclassified
        invariant Valid()
        invariant all == TakeOptional(cfg, Progress(Now(), collected), o, reserved)
        decreases |args|
      {
        if reserved >= |args| {
          break;
        }
        var current := args[|args| - 1];
        if cfg.validateOptional && !sp.accepts(current) {
          break;
        }
        args := args[..|args| - 1];
        GiveKeeps(cfg, Now(), o, current);
        var count := AddText(o, current);
        collected := collected + count;
      }
    }

    method CloseList()
      modifies this`args
      ensures Now() == Closed(cfg, old(Now()))
    {
      hide Recognize;
      if args != [] && Recognize(cfg, args[|args| - 1]) == PositionalMark {
        args := args[..|args| - 1];
      }
    }

    method DefaultFlag(o: nat, name: Token, collected: nat) returns (ok: bool)
      requires Valid() && o < |results|
      modifies this`results, this`order
      ensures var r := Defaulted(cfg, Progress(old(Now()), collected), o, name);
        ok == r.Some? && (ok ==> r.value == Now())
      ensures |results| == old(|results|)
    {
      hide Give, Spec.MinNum, Spec.MaxNum;
      ok := true;
      var most := Most(o);
      if cfg.options[o].MinNum() == 0 && most > 0 && collected == 0 {
        var flag := cfg.options[o].flagValue(name, []);
        if flag.None? {
          return false;
        }
        var _ := AddText(o, flag.value);
      }
    }

    method Complete(o: nat, collected: nat) returns (ok: bool)
      requires Valid() && o < |results|
      modifies this`results
      ensures var r := Completed(cfg, old(Now()), o, collected); ok == r.Some? && (ok ==> r.value == Now())
      ensures |results| == old(|results|)
    {
      hide Fill;
      var sp := cfg.options[o];
      ok := true;
      if sp.MinNum() > 0 && sp.typeMax > 0 && collected % sp.typeMax != 0 {
        if sp.typeMax != sp.typeMin {
          AddEmpty(o);
        } else {
          ok := false;
        }
      }
    }

    /** Optional arguments, the mark behind them, an unfinished group, and the rest of a cluster. */
    method EndOption(o: nat, parts: Parts, start: nat) returns (ok: bool)
      requires Valid() && o < |results|
      modifies this`args, this`results, this`order
      ensures var r := Ending(cfg, Progress(old(Now()), start), o, parts); ok == r.Some? && (ok ==> r.value == Now())
      ensures |results| == old(|results|)
    {
      hide TakeOptional, Remaining, Defaulted, Completed, Closed, Spec.MaxNum, Spec.MinNum;
      var sp, collected := cfg.options[o], start;
      var most := Most(o);
      ok := true;
      if most > collected || sp.allowExtra {
        collected := TakeMore(o, collected);
        CloseList();
        ok := DefaultFlag(o, parts.name, collected);
      }
      if ok {
        ok := Complete(o, collected);
        if ok {
          var rest := if most == 0 || parts.value != [] then parts.rest else [];
          if rest != [] {
            args := args + [[MINUS] + rest];
          }
        }
      }
    }

    method TakeOption(o: nat, parts: Parts) returns (ok: bool, ghost use: Use)
      requires Valid() && o < |results| && args != []
      modifies this`args, this`results, this`order
      ensures var r := ParseOption(cfg, old(Now()), o, parts); ok == r.Some? && (ok ==> r.value == (Now(), use))
      ensures |results| == old(|results|)
    {
      hide Own, Parted, Gather, Ending, Taken, WantsMore, EndsList, RestLeft, Spec.MinNum;
      ghost var s := Now();
      use := Leftover(Unclassified, []);
      args := args[..|args| - 1];
      Part(o);
      var collected;
      ok, collected := TakeOwn(o, parts);
      if ok {
        var least := cfg.options[o].MinNum();
        collected := GatherLeast(o, least, collected);
        if least > collected {
          ok := false;
        } else {
          ghost var got := Progress(Now(), collected);
          ok := EndOption(o, parts, collected);
          if ok {
            use := ParseOption(cfg, s, o, parts).value.1;
          }
        }
      }
    }

    method MoveToMissing(kind: Classifier, token: Token)
      modifies this`missing
      ensures missing == old(missing) + [(kind, token)]
    {
      missing := missing + [(kind, token)];
    }

    method TakeArg(kind: Classifier) returns (ok: bool, ghost use: Use)
      requires Valid() && args != []
      modifies this`args, this`results, this`order, this`missing
      ensures var r := ParseArg(cfg, old(Now()), kind); ok == r.Some? && (ok ==> r.value == (Now(), use))
      ensures |results| == old(|results|)
    {
      hide ParseOption, FirstMatch, SplitLong, SplitShort, SplitWindowsStyle;
      var current := args[|args| - 1];
      use := Leftover(kind, current);
      var split := PartsOf(kind, current);
      ok := false;
      if split.Some? {
        var parts := split.value;
        var o := Find(kind, parts.name);
        if o == |cfg.options| && cfg.nonStandard && kind == Short && |current| > 2 {
          var long := SplitLong([MINUS] + current);
          if long.Some? {
            o := Find(Short, long.value.name);
            parts := long.value;
          }
        }
        if o < |cfg.options| {
          ok, use := TakeOption(o, parts);
        } else {
          args := args[..|args| - 1];
          MoveToMissing(kind, current);
          ok := true;
        }
      }
    }

    // -------------------------------------------------------------- positional arguments

    method FindPositional(token: Token) returns (o: nat)
      requires Valid() && args != [] && token == Last(args)
      ensures o == PositionalFor(cfg, Now())
    {
      hide Remaining, StillRequired, HasRoom;
      o := |cfg.options|;
      if cfg.positionalsAtEnd {
        var required := CountRemaining();
        if |args| <= required {
          o := 0;
          while o < |cfg.options| && !StillRequired(cfg, Now(), token, o)
            invariant o <= |cfg.options|
            invariant FirstRequired(cfg, Now(), token, 0) == FirstRequired(cfg, Now(), token, o)
          {
            o := o + 1;
          }
        }
      }
      if o == |cfg.options| {
        o := 0;
        while o < |cfg.options| && !HasRoom(cfg, Now(), token, o)
          invariant o <= |cfg.options|
          invariant FirstRoom(cfg, Now(), token, 0) == FirstRoom(cfg, Now(), token, o)
        {
          o := o + 1;
        }
      }
    }

    method LeaveAll() returns (ghost left: seq<Use>)
      requires Valid()
      modifies this`args, this`missing
      ensures AllLeftover(old(Now())) == (Now(), left)
    {
      left := [];
      assert [] + AllLeftover(Now()).1 == AllLeftover(Now()).1;
      while args != []
        invariant var all := AllLeftover(Now()); AllLeftover(old(Now())) == (all.0, left + all.1)
        decreases |args|
      {
        var token := args[|args| - 1];
        ghost var more := AllLeftover(Now()).1[1..];
        assert left + ([Leftover(Unclassified, token)] + more) == (left + [Leftover(Unclassified, token)]) + more;
        left := left + [Leftover(Unclassified, token)];
        MoveToMissing(Unclassified, token);
        args := args[..|args| - 1];
      }
      assert left + [] == left;
    }

    method TakePositional() returns (ok: bool, ghost step: seq<Use>)
      requires Valid() && args != []
      modifies this`args, this`results, this`order, this`missing
      ensures var r := ParsePositional(cfg, old(Now())); ok == r.Some? && (ok ==> r.value == (Now(), step))
      ensures |results| == old(|results|)
    {
      hide PositionalFor, AllLeftover, Parted, Spec.Texts;
      var positional := args[|args| - 1];
      var o := FindPositional(positional);
      ok, step := true, [];
      if o < |cfg.options| {
        Part(o);
        var _ := AddText(o, positional);
        args := args[..|args| - 1];
        step := [Positional(o, positional)];
      } else if cfg.positionalsAtEnd {
        ok := false;
      } else {
        MoveToMissing(Unclassified, positional);
        args := args[..|args| - 1];
        step := [Leftover(Unclassified, positional)];
        if cfg.prefixCommand {
          ghost var more := LeaveAll();
          step := step + more;
        } else {
          NoUses(step[0]);
        }
      }
    }

    method TakeSingle() returns (ok: bool, ghost step: seq<Use>)
      requires Valid() && args != []
      modifies this`args, this`results, this`order, this`missing, this`positionalOnly
      ensures var r := ParseSingle(cfg, old(Now())); ok == r.Some? && (ok ==> r.value == (Now(), step))
      ensures |results| == old(|results|)
    {
      hide ParsePositional, ParseArg, SplitLong, SplitShort, SplitWindowsStyle, FirstMatch;
      var kind := if positionalOnly then Unclassified else Recognize(cfg, args[|args| - 1]);
      if kind == PositionalMark {
        args := args[..|args| - 1];
        positionalOnly := true;
        MoveToMissing(kind, MARK);
        ok, step := true, [Leftover(kind, MARK)];
      } else if kind == Unclassified {
        ok, step := TakePositional();
        if ok && cfg.positionalsAtEnd {
          positionalOnly := true;
        }
      } else {
        ghost var use;
        ok, use := TakeArg(kind);
        step := [use];
      }
    }

    /**
     The loop over all arguments; it ends because every step makes what is pending smaller. In a run without
     an exception the uses recorded rebuild the command line, tell every option's results and are its only story; a run
     with an exception has none.
     */
    method Run() returns (ok: bool)
      requires Valid() && uses == [] && missing == []
      modifies this
      ensures var r := Parse(cfg, old(Now())); ok == r.Some? && (ok ==> r.value == (Now(), uses))
      ensures ok ==> args == [] && Rebuild(uses, []) == old(args) && missing == Leftovers(uses)
      ensures ok ==> Replays(cfg, old(results), results, uses)
      ensures ok ==> Story(cfg, SceneOf(old(Now())), uses)
      ensures forall told :: Story(cfg, SceneOf(old(Now())), told) ==> ok && told == uses
    {
      hide ParseSingle, Parse, Rebuild, Leftovers, Pending, Replays, Story;
      ghost var start := Now();
      forall told
        ensures Story(cfg, SceneOf(start), told) <==> Parse(cfg, start).Some? && Parse(cfg, start).value.1 == told
      {
        ParseIsTheStory(cfg, start, told);
      }
      ParseAccounts(cfg, start);
      ParseResults(cfg, start);
      ok := true;
      BeforeNothing(Parse(cfg, start));
      while args != []
        invariant Valid() && ok
        invariant Parse(cfg, start) == Before(uses, Parse(cfg, Now()))
        decreases Pending(args)
      {
        ParseStep(cfg, Now());
        SingleShrinks(cfg, Now());
        ghost var s, done := Now(), uses;
        ghost var step;
        ok, step := TakeSingle();
        if !ok {
          return;
        }
        BeforeBoth(done, step, Parse(cfg, Now()));
        uses := uses + step;
      }
      ParseStep(cfg, Now());
      assert uses + [] == uses;
      assert [] + Leftovers(uses) == Leftovers(uses);
    }
  }

  /** The uses of earlier steps in front of those of the rest of a run. */
  ghost function Before(uses: seq<Use>, r: Option<(State, seq<Use>)>): Option<(State, seq<Use>)> {
    if r.None? then None else Some((r.value.0, uses + r.value.1))
  }

  lemma BeforeNothing(r: Option<(State, seq<Use>)>)
    ensures Before([], r) == r
  {
    if r.Some? {
      assert [] + r.value.1 == r.value.1;
    }
  }

  lemma BeforeBoth(a: seq<Use>, b: seq<Use>, r: Option<(State, seq<Use>)>)
    ensures Before(a, Before(b, r)) == Before(a + b, r)
  {
    if r.Some? {
      assert a + (b + r.value.1) == (a + b) + r.value.1;
    }
  }

  /** The 32-bit type holds the non-negative numbers up to its maximum. */
  lemma IntHolds(a: nat)
    ensures C.Signed(32).Holds(a) <==> a <= INT_MAX
  {
    Bits.SmallPowers();
    Unicode.PowStep(10);
    Unicode.PowStep(14);
    Unicode.PowStep(18);
    Unicode.PowStep(22);
    Unicode.PowStep(26);
    assert Bits.Pow2(31) == 2 * Bits.Pow2(30);
  }

  lemma GiveKeeps(cfg: Settings, s: State, o: nat, text: Token)
    requires s.Fits(cfg) && o < |cfg.options|
    ensures Give(cfg, s, o, text).args == s.args && |Give(cfg, s, o, text).results| == |s.results|
  {
  }
}
