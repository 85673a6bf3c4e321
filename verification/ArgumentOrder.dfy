/** The order in which a run handed texts to options, told by the uses alone. */
module ArgumentOrder {
  import opened Bytes
  import opened Arguments
  import opened ArgumentResults
  import opened ArgumentStory

  ghost function Copies(o: nat, n: nat): seq<nat> { seq(n, _ => o) }

  /** Whether the token of an option brings a text with it, and whether one stands for the arguments it did not get. */
  ghost function Brought(sp: Spec, parts: Parts): nat {
    if Most(sp) == 0 || parts.value != [] || parts.rest != [] then 1 else 0
  }

  ghost function Assumed(sp: Spec, collected: nat): nat {
    if Least(sp) == 0 && Most(sp) > 0 && collected == 0 then 1 else 0
  }

  /** An option is in the order once for its own text, once for each argument and once for what stands for none. */
  ghost function Orders(cfg: Settings, use: Use): seq<nat>
    requires use.Leftover? || use.option < |cfg.options|
  {
    match use
    case Leftover(_, _) => []
    case Positional(o, _) => [o]
    case Named(o, _, parts, taken, _, _) =>
      var sp := cfg.options[o];
      Copies(o, Brought(sp, parts) + |taken| + Assumed(sp, OwnCount(sp, parts) + |GivenTexts(sp, taken)|))
  }

  ghost predicate Known(cfg: Settings, uses: seq<Use>) {
    forall u <- uses :: u.Leftover? || u.option < |cfg.options|
  }

  ghost function AllOrders(cfg: Settings, uses: seq<Use>): seq<nat>
    requires Known(cfg, uses)
    decreases |uses|
  {
    if uses == [] then []
    else
      assert uses[0] in uses && forall u <- uses[1..] :: u in uses;
      Orders(cfg, uses[0]) + AllOrders(cfg, uses[1..])
  }

  lemma CopiesConcat(o: nat, a: nat, b: nat)
    ensures Copies(o, a) + Copies(o, b) == Copies(o, a + b)
    ensures [o] == Copies(o, 1) && [] == Copies(o, 0)
  {
  }

  /** The order has got so many entries of the option behind it. */
  ghost predicate Ordered(before: seq<nat>, after: seq<nat>, o: nat, n: nat) {
    after == before + Copies(o, n)
  }

  lemma OrderedTwice(a: seq<nat>, b: seq<nat>, c: seq<nat>, o: nat, m: nat, n: nat)
    requires Ordered(a, b, o, m) && Ordered(b, c, o, n)
    ensures Ordered(a, c, o, m + n)
  {
    CopiesConcat(o, m, n);
    assert (a + Copies(o, m)) + Copies(o, n) == a + (Copies(o, m) + Copies(o, n));
  }

  lemma OrderedNothing(a: seq<nat>, o: nat)
    ensures Ordered(a, a, o, 0)
  {
  }

  lemma TakeTopOrder(cfg: Settings, o: nat, p: Progress)
    requires p.state.Fits(cfg) && o < |cfg.options| && p.state.args != []
    ensures Ordered(p.state.order, TakeTop(cfg, o, p).state.order, o, 1)
    ensures TakeTop(cfg, o, p).state.args == ButLast(p.state.args)
  {
    CopiesConcat(o, 1, 0);
  }

  lemma {:induction false} GatherOrder(cfg: Settings, p: Progress, o: nat, least: nat)
    requires p.state.Fits(cfg) && o < |cfg.options|
    ensures var q := Gather(cfg, p, o, least);
      && |q.state.args| <= |p.state.args|
      && Ordered(p.state.order, q.state.order, o, |p.state.args| - |q.state.args|)
    decreases |p.state.args|
  {
    hide Ordered, GiveCounted;
    if least > p.collected && p.state.args != [] {
      var next := TakeTop(cfg, o, p);
      TakeTopOrder(cfg, o, p);
      GatherOrder(cfg, next, o, least);
      var q := Gather(cfg, next, o, least);
      OrderedTwice(p.state.order, next.state.order, q.state.order, o, 1, |next.state.args| - |q.state.args|);
    } else {
      OrderedNothing(p.state.order, o);
    }
  }

  lemma {:induction false} TakeOptionalOrder(cfg: Settings, p: Progress, o: nat, reserved: nat)
    requires p.state.Fits(cfg) && o < |cfg.options|
    ensures var q := TakeOptional(cfg, p, o, reserved);
      && |q.state.args| <= |p.state.args|
      && Ordered(p.state.order, q.state.order, o, |p.state.args| - |q.state.args|)
    decreases |p.state.args|
  {
    hide Ordered, GiveCounted, Recognize;
    if Takes(cfg, p, o, reserved) {
      var next := TakeTop(cfg, o, p);
      TakeTopOrder(cfg, o, p);
      TakeOptionalOrder(cfg, next, o, reserved);
      var q := TakeOptional(cfg, next, o, reserved);
      OrderedTwice(p.state.order, next.state.order, q.state.order, o, 1, |next.state.args| - |q.state.args|);
    } else {
      OrderedNothing(p.state.order, o);
    }
  }

  lemma TakenOrder(cfg: Settings, p: Progress, o: nat)
    requires p.state.Fits(cfg) && o < |cfg.options|
    ensures var q := Taken(cfg, p, o);
      && |q.state.args| <= |p.state.args|
      && Ordered(p.state.order, q.state.order, o, |p.state.args| - |q.state.args|)
  {
    hide TakeOptional, Ordered, WantsMore;
    TakeOptionalOrder(cfg, p, o, Remaining(cfg.options, p.state.results));
    OrderedNothing(p.state.order, o);
  }

  lemma OwnOrder(cfg: Settings, s: State, o: nat, parts: Parts)
    requires s.Fits(cfg) && o < |cfg.options|
    ensures var r := Own(cfg, Parted(cfg, s, o), o, parts);
      r.Some? ==> Ordered(s.order, r.value.state.order, o, Brought(cfg.options[o], parts))
  {
    hide Spec.Texts, Spec.MaxNum, Most;
    BoundsAlike(cfg.options[o]);
    CopiesConcat(o, 1, 0);
  }

  lemma EndingOrder(cfg: Settings, got: Progress, o: nat, parts: Parts)
    requires got.state.Fits(cfg) && o < |cfg.options| && got.collected <= Taken(cfg, got, o).collected
    ensures var r, all := Ending(cfg, got, o, parts), Taken(cfg, got, o);
      r.Some? ==> Ordered(all.state.order, r.value.order, o, Assumed(cfg.options[o], all.collected))
  {
    hide Taken, RestLeft, EndsList, Spec.Texts, Spec.MaxNum, Spec.MinNum, Most, Least;
    BoundsAlike(cfg.options[o]);
    CopiesConcat(o, 1, 0);
  }

  /** Up to the last argument that is taken. */
  lemma TakenByOrder(cfg: Settings, s: State, o: nat, parts: Parts, own: Progress, got: Progress, all: Progress)
    requires s.Fits(cfg) && o < |cfg.options| && Own(cfg, Parted(cfg, s, o), o, parts) == Some(own)
    requires got == Gather(cfg, own, o, cfg.options[o].MinNum()) && all == Taken(cfg, got, o)
    ensures var m := |all.state.args|; var sp := cfg.options[o];
      && m <= |s.args| && all.state.args == s.args[..m] && got.collected <= all.collected
      && all.collected == OwnCount(sp, parts) + |GivenTexts(sp, s.args[m..])|
      && Ordered(s.order, all.state.order, o, Brought(sp, parts) + (|s.args| - m))
  {
    hide Own, Parted, Gather, Taken, Gave, Ordered, OwnCount, GivenTexts, Spec.MinNum, Brought, Parting, OwnTexts;
    var sp := cfg.options[o];
    OwnAlike(cfg, s, o, parts);
    OwnOrder(cfg, s, o, parts);
    GatherOrder(cfg, own, o, sp.MinNum());
    TakenOrder(cfg, got, o);
    GatherGives(cfg, own, o, sp.MinNum());
    TakenGives(cfg, got, o);
    GaveTwice(cfg, o, own, got, all);
    GaveBehind(cfg, o, own, all);
    GaveArgs(cfg, o, own, all);
    GaveMore(cfg, o, got, all);
    var m := |all.state.args|;
    OrderedTwice(own.state.order, got.state.order, all.state.order, o, |s.args| - |got.state.args|,
                 |got.state.args| - m);
    OrderedTwice(s.order, own.state.order, all.state.order, o, Brought(sp, parts), |s.args| - m);
  }

  lemma OptionOrder(cfg: Settings, s: State, o: nat, parts: Parts)
    requires s.Fits(cfg) && o < |cfg.options| && s.args != []
    ensures var r := ParseOption(cfg, s, o, parts);
      r.Some? ==> r.value.1.Named? && r.value.1.option == o && r.value.0.order == s.order + Orders(cfg, r.value.1)
  {
    hide Own, Parted, Gather, Taken, Ending, WantsMore, EndsList, RestLeft, Ordered, OwnCount, GivenTexts,
      Spec.MinNum, Copies, Brought, Assumed;
    var r, sp, popped := ParseOption(cfg, s, o, parts), cfg.options[o], s.(args := ButLast(s.args));
    if r.Some? {
      var own := Own(cfg, Parted(cfg, popped, o), o, parts).value;
      var got := Gather(cfg, own, o, sp.MinNum());
      var all := Taken(cfg, got, o);
      TakenByOrder(cfg, popped, o, parts, own, got, all);
      EndingOrder(cfg, got, o, parts);
      var n := Brought(sp, parts) + (|popped.args| - |all.state.args|);
      OrderedTwice(s.order, all.state.order, r.value.0.order, o, n, Assumed(sp, all.collected));
      OrderedIs(s.order, r.value.0.order, o, n + Assumed(sp, all.collected));
    }
  }

  lemma OrderedIs(a: seq<nat>, b: seq<nat>, o: nat, n: nat)
    requires Ordered(a, b, o, n)
    ensures b == a + Copies(o, n)
  {
  }

  // ---------------------------------------------------------------- whole runs

  ghost predicate TellsOrder(cfg: Settings, before: seq<nat>, after: seq<nat>, uses: seq<Use>) {
    Known(cfg, uses) && after == before + AllOrders(cfg, uses)
  }

  lemma {:induction false} OrdersConcat(cfg: Settings, u: seq<Use>, v: seq<Use>)
    requires Known(cfg, u) && Known(cfg, v)
    ensures Known(cfg, u + v) && AllOrders(cfg, u + v) == AllOrders(cfg, u) + AllOrders(cfg, v)
    decreases |u|
  {
    hide Orders;
    if u == [] {
      assert u + v == v;
    } else {
      assert u[0] in u && forall x <- u[1..] :: x in u;
      OrdersConcat(cfg, u[1..], v);
      assert (u + v)[1..] == u[1..] + v && (u + v)[0] == u[0];
      OrdersJoined(Orders(cfg, u[0]), AllOrders(cfg, u[1..]), AllOrders(cfg, v));
    }
  }

  lemma OrdersJoined(a: seq<nat>, b: seq<nat>, c: seq<nat>)
    ensures a + (b + c) == (a + b) + c
  {
  }

  lemma TellsTwice(cfg: Settings, a: seq<nat>, b: seq<nat>, c: seq<nat>, u: seq<Use>, v: seq<Use>)
    requires TellsOrder(cfg, a, b, u) && TellsOrder(cfg, b, c, v)
    ensures TellsOrder(cfg, a, c, u + v)
  {
    hide AllOrders;
    OrdersConcat(cfg, u, v);
    assert (a + AllOrders(cfg, u)) + AllOrders(cfg, v) == a + (AllOrders(cfg, u) + AllOrders(cfg, v));
  }

  lemma TellsOne(cfg: Settings, a: seq<nat>, b: seq<nat>, use: Use)
    requires (use.Leftover? || use.option < |cfg.options|) && b == a + Orders(cfg, use)
    ensures TellsOrder(cfg, a, b, [use])
  {
    hide Orders;
    var uses := [use];
    assert uses[1..] == [];
    assert AllOrders(cfg, uses) == Orders(cfg, use) + AllOrders(cfg, uses[1..]) == Orders(cfg, use);
  }

  lemma TellsNothing(cfg: Settings, a: seq<nat>)
    ensures TellsOrder(cfg, a, a, [])
  {
  }

  lemma {:induction false} LeftoversOrder(cfg: Settings, s: State)
    ensures TellsOrder(cfg, s.order, AllLeftover(s).0.order, AllLeftover(s).1)
    decreases |s.args|
  {
    hide TellsOrder;
    if s.args == [] {
      TellsNothing(cfg, s.order);
    } else {
      var use := Leftover(Unclassified, Last(s.args));
      var rest := s.(args := ButLast(s.args), missing := s.missing + [(Unclassified, Last(s.args))]);
      LeftoversOrder(cfg, rest);
      assert s.order + [] == s.order;
      TellsOne(cfg, s.order, s.order, use);
      TellsTwice(cfg, s.order, s.order, AllLeftover(rest).0.order, [use], AllLeftover(rest).1);
    }
  }

  lemma PositionalOrder(cfg: Settings, s: State)
    requires s.Fits(cfg) && s.args != []
    ensures var r := ParsePositional(cfg, s); r.Some? ==> TellsOrder(cfg, s.order, r.value.0.order, r.value.1)
  {
    hide PositionalFor, TellsOrder, AllLeftover;
    var r, token, o := ParsePositional(cfg, s), Last(s.args), PositionalFor(cfg, s);
    if o < |cfg.options| {
      GiveOrder(cfg, s, o, token);
      TellsOne(cfg, s.order, r.value.0.order, Positional(o, token));
    } else if r.Some? {
      var use := Leftover(Unclassified, token);
      var one := s.(args := ButLast(s.args), missing := s.missing + [(Unclassified, token)]);
      assert s.order + [] == s.order;
      TellsOne(cfg, s.order, s.order, use);
      LeftoversOrder(cfg, one);
      TellsNothing(cfg, s.order);
      TellsTwice(cfg, s.order, s.order, r.value.0.order, [use], if cfg.prefixCommand then AllLeftover(one).1 else []);
    }
  }

  lemma GiveOrder(cfg: Settings, s: State, o: nat, token: Token)
    requires s.Fits(cfg) && o < |cfg.options|
    ensures Give(cfg, Parted(cfg, s, o), o, token).order == s.order + [o]
  {
  }

  lemma ArgOrder(cfg: Settings, s: State, kind: Classifier)
    requires s.Fits(cfg) && s.args != []
    ensures var r := ParseArg(cfg, s, kind); r.Some? ==> TellsOrder(cfg, s.order, r.value.0.order, [r.value.1])
  {
    hide ParseOption, PartsOf, FirstMatch, TellsOrder, Orders;
    var r, cur := ParseArg(cfg, s, kind), Last(s.args);
    if r.Some? {
      var parts := PartsOf(kind, cur).value;
      var o := FirstMatch(cfg.options, 0, kind, parts.name);
      if o < |cfg.options| {
        OptionOrder(cfg, s, o, parts);
      } else if IsNonStandard(cfg, kind, cur) {
        var long := SplitLong([MINUS] + cur).value;
        OptionOrder(cfg, s, FirstMatch(cfg.options, 0, Short, long.name), long);
      } else {
        LeftoverOrder(cfg, s, kind);
      }
      TellsOne(cfg, s.order, r.value.0.order, r.value.1);
    }
  }

  lemma LeftoverOrder(cfg: Settings, s: State, kind: Classifier)
    requires s.args != []
    ensures s.order == s.order + Orders(cfg, Leftover(kind, Last(s.args)))
  {
  }

  lemma SingleOrder(cfg: Settings, s: State)
    requires s.Fits(cfg) && s.args != []
    ensures var r := ParseSingle(cfg, s); r.Some? ==> TellsOrder(cfg, s.order, r.value.0.order, r.value.1)
  {
    hide ParseArg, ParsePositional, Recognize, TellsOrder;
    var r, kind := ParseSingle(cfg, s), if s.positionalOnly then Unclassified else Recognize(cfg, Last(s.args));
    if kind == PositionalMark {
      LeftoverOrder(cfg, s, kind);
      TellsOne(cfg, s.order, s.order, Leftover(kind, Last(s.args)));
    } else if kind == Unclassified {
      PositionalOrder(cfg, s);
    } else {
      ArgOrder(cfg, s, kind);
    }
  }

  /** The options are noted in the order in which the uses gave them texts, as often as they did. */
  lemma {:induction false} ParseOrder(cfg: Settings, s: State)
    requires s.Fits(cfg)
    ensures var r := Parse(cfg, s); r.Some? ==> TellsOrder(cfg, s.order, r.value.0.order, r.value.1)
    decreases Pending(s.args)
  {
    hide ParseSingle, Pending, TellsOrder, Parse;
    ParseStep(cfg, s);
    if s.args == [] {
      TellsNothing(cfg, s.order);
    } else if Parse(cfg, s).Some? {
      SingleShrinks(cfg, s);
      SingleOrder(cfg, s);
      var one := ParseSingle(cfg, s).value;
      var more := Parse(cfg, one.0).value;
      ParseOrder(cfg, one.0);
      TellsTwice(cfg, s.order, one.0.order, more.0.order, one.1, more.1);
    }
  }
}
