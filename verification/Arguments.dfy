/**
 What the argument loop of one application does with a command line: which option takes which argument, what
 is left over, and what is pushed back. The pending arguments are a stack, the next one last.
 */
module Arguments {
  import opened Bytes
  import opened ConfigValue
  import C = CheckedMultiply

  type Token = seq<byte>

  const UNLIMITED: nat := 0x2000_0000
  const MARK: Token := [MINUS, MINUS]
  const EQUALS: byte := 61

  datatype Classifier = Unclassified | PositionalMark | Short | Long | WindowsStyle

  /** One option; name matching, validation and flag values are what the option was set up with. */
  datatype Spec = Spec(
    positional: bool, required: bool, typeMin: nat, typeMax: nat, expectedMin: nat, expectedMax: nat,
    allowExtra: bool, separated: bool, delimiter: byte,
    short: Token -> bool, long: Token -> bool, accepts: Token -> bool, flagValue: (Token, Token) -> Option<Token>)
  {
    ghost predicate Valid() {
      && typeMin <= typeMax <= INT_MAX
      && expectedMin <= expectedMax <= INT_MAX
    }

    function ItemsMin(): nat { typeMin * expectedMin }

    function ItemsMax(): nat { Product(typeMax, expectedMax) }

    /** How many arguments the option must have. */
    function MinNum(): nat { if typeMin < ItemsMin() then typeMin else ItemsMin() }

    /** How many it takes at most; one type's worth where more must not be added. */
    function MaxNum(): nat {
      if ItemsMax() >= UNLIMITED / 16 && !allowExtra then Product(typeMax, expectedMin) else ItemsMax()
    }

    /** Whether a text in brackets is spread over several results. */
    predicate Spreads() { allowExtra || expectedMax > 1 }

    function Texts(text: Token): seq<Token> { Results(text, Spreads(), delimiter) }
  }

  /** The product, cut off where an int cannot hold it. */
  function Product(a: nat, b: nat): nat {
    var product: nat := a * b;
    if product <= INT_MAX then product else UNLIMITED
  }

  datatype Settings = Settings(
    options: seq<Spec>, positionalsAtEnd: bool, validatePositionals: bool, validateOptional: bool,
    windowsStyle: bool, nonStandard: bool, prefixCommand: bool)
  {
    ghost predicate Valid() {
      forall k :: 0 <= k < |options| ==> options[k].Valid()
    }
  }

  datatype State = State(
    args: seq<Token>, results: seq<seq<Token>>, missing: seq<(Classifier, Token)>, order: seq<nat>,
    positionalOnly: bool)
  {
    ghost predicate Fits(cfg: Settings) { |results| == |cfg.options| }
  }

  // ---------------------------------------------------------------- recognizing a token

  predicate ValidFirst(c: byte) { c != MINUS && c > 33 }

  datatype Parts = Parts(name: Token, value: Token, rest: Token)

  function SplitLong(cur: Token): Option<Parts> {
    if |cur| > 2 && cur[0] == MINUS && cur[1] == MINUS && ValidFirst(cur[2]) then
      var loc := FirstIndex(cur, 0, EQUALS);
      if loc < |cur| then Some(Parts(cur[2..loc], cur[loc + 1..], [])) else Some(Parts(cur[2..], [], []))
    else None
  }

  function SplitShort(cur: Token): (r: Option<Parts>)
    ensures r.Some? ==> cur == [MINUS] + r.value.name + r.value.rest && |r.value.name| == 1 && r.value.value == []
  {
    if |cur| > 1 && cur[0] == MINUS && ValidFirst(cur[1]) then Some(Parts(cur[1..2], [], cur[2..])) else None
  }

  function SplitWindowsStyle(cur: Token): Option<Parts> {
    if |cur| > 1 && cur[0] == SLASH && ValidFirst(cur[1]) then
      var loc := FirstIndex(cur, 0, COLON);
      if loc < |cur| then Some(Parts(cur[1..loc], cur[loc + 1..], [])) else Some(Parts(cur[1..], [], []))
    else None
  }

  predicate Matches(sp: Spec, kind: Classifier, name: Token) {
    match kind
    case Long => sp.long(name)
    case Short => sp.short(name)
    case _ => sp.long(name) || sp.short(name)
  }

  /** The first option from i on that goes by the name; the number of options when none does. */
  function FirstMatch(options: seq<Spec>, i: nat, kind: Classifier, name: Token): (r: nat)
    requires i <= |options|
    ensures i <= r <= |options|
    decreases |options| - i
  {
    if i == |options| || Matches(options[i], kind, name) then i else FirstMatch(options, i + 1, kind, name)
  }

  /** A short option must not be a negative number, unless a digit is the name of an option. */
  function Recognize(cfg: Settings, cur: Token): Classifier {
    if cur == MARK then PositionalMark
    else if SplitLong(cur).Some? then Long
    else if SplitShort(cur).Some? then
      if IsDigit(cur[1]) && FirstMatch(cfg.options, 0, Short, [cur[1]]) == |cfg.options| then Unclassified else Short
    else if cfg.windowsStyle && SplitWindowsStyle(cur).Some? then WindowsStyle
    else Unclassified
  }

  // ---------------------------------------------------------------- what a step did

  /**
   The account of a token: an option by its name, with the parts of the token, the arguments it took (as they lay
   on the stack), the mark that ended them and the rest of a cluster that was pushed back; a positional argument;
   or an entry of the list of leftovers.
   */
  datatype Use =
    | Named(option: nat, token: Token, parts: Parts, taken: seq<Token>, closed: bool, rest: Token)
    | Positional(option: nat, token: Token)
    | Leftover(kind: Classifier, token: Token)

  /** A cluster is left with everything but its first letter. */
  ghost predicate Sound(use: Use, after: seq<Token>) {
    use.Named? && use.rest != [] ==>
      && after != [] && Last(after) == [MINUS] + use.rest
      && |use.token| == |use.rest| + 2 && use.token[0] == MINUS && use.token[2..] == use.rest
  }

  /** The stack as it was before the step. */
  ghost function Undo(use: Use, after: seq<Token>): seq<Token> {
    match use
    case Named(_, token, _, taken, closed, rest) =>
      (if rest == [] || after == [] then after else ButLast(after)) + (if closed then [MARK] else []) + taken + [token]
    case _ => after + [use.token]
  }

  ghost predicate AllSound(uses: seq<Use>, after: seq<Token>)
    decreases |uses|
  {
    uses == [] || (Sound(Last(uses), after) && AllSound(ButLast(uses), Undo(Last(uses), after)))
  }

  ghost function Rebuild(uses: seq<Use>, after: seq<Token>): seq<Token>
    decreases |uses|
  {
    if uses == [] then after else Rebuild(ButLast(uses), Undo(Last(uses), after))
  }

  ghost function Leftovers(uses: seq<Use>): seq<(Classifier, Token)>
    decreases |uses|
  {
    if uses == [] then []
    else Leftovers(ButLast(uses)) + if Last(uses).Leftover? then [(Last(uses).kind, Last(uses).token)] else []
  }

  // ---------------------------------------------------------------- one option by its name

  /** A text handed to an option counts as one more thing parsed. */
  function Give(cfg: Settings, s: State, o: nat, text: Token): (r: State)
    requires s.Fits(cfg) && o < |s.results|
    ensures r.Fits(cfg)
  {
    s.(results := s.results[o := s.results[o] + cfg.options[o].Texts(text)], order := s.order + [o])
  }

  /** An empty result, to part or fill up groups of results. */
  function Fill(cfg: Settings, s: State, o: nat): (r: State)
    requires s.Fits(cfg) && o < |s.results|
    ensures r.Fits(cfg)
  {
    s.(results := s.results[o := s.results[o] + cfg.options[o].Texts([])])
  }

  function Parted(cfg: Settings, s: State, o: nat): (r: State)
    requires s.Fits(cfg) && o < |s.results|
    ensures r.Fits(cfg) && r == s.(results := r.results)
  {
    if cfg.options[o].separated && s.results[o] != [] && Last(s.results[o]) != [] then Fill(cfg, s, o) else s
  }

  /** How far the option has come: the state and the number of arguments collected. */
  datatype Progress = Progress(state: State, collected: nat)

  function GiveCounted(cfg: Settings, p: Progress, o: nat, text: Token): (r: Progress)
    requires p.state.Fits(cfg) && o < |cfg.options|
    ensures r.state.Fits(cfg)
  {
    Progress(Give(cfg, p.state, o, text), p.collected + |cfg.options[o].Texts(text)|)
  }

  /** What the token brings itself; None stands for the exception of a flag value that is refused. */
  function Own(cfg: Settings, s: State, o: nat, parts: Parts): (r: Option<Progress>)
    requires s.Fits(cfg) && o < |cfg.options|
    ensures r.Some? ==> r.value.state.Fits(cfg)
  {
    var sp := cfg.options[o];
    var start := Progress(s, 0);
    if sp.MaxNum() == 0 then
      var flag := sp.flagValue(parts.name, parts.value);
      if flag.None? then None else Some(Progress(Give(cfg, s, o, flag.value), 0))
    else if parts.value != [] then Some(GiveCounted(cfg, start, o, parts.value))
    else if parts.rest != [] then Some(GiveCounted(cfg, start, o, parts.rest))
    else Some(start)
  }

  function RestLeft(sp: Spec, parts: Parts): Token {
    if sp.MaxNum() == 0 || parts.value != [] then parts.rest else []
  }

  /** The required arguments, whatever they look like. */
  function Gather(cfg: Settings, p: Progress, o: nat, least: nat): (r: Progress)
    requires p.state.Fits(cfg) && o < |cfg.options|
    ensures r.state.Fits(cfg)
    decreases |p.state.args|
  {
    var s := p.state;
    if least > p.collected && s.args != [] then
      Gather(cfg, GiveCounted(cfg, p.(state := s.(args := ButLast(s.args))), o, Last(s.args)), o, least)
    else p
  }

  /** Missing arguments of the required positional options. */
  function Remaining(options: seq<Spec>, results: seq<seq<Token>>): nat
    requires |options| == |results|
  {
    if options == [] then 0 else
      var sp, count := Last(options), |Last(results)|;
      Remaining(ButLast(options), ButLast(results)) +
      if sp.positional && sp.required && count < sp.ItemsMin() then sp.ItemsMin() - count else 0
  }

  predicate Takes(cfg: Settings, p: Progress, o: nat, reserved: nat)
    requires o < |cfg.options|
  {
    var sp, args := cfg.options[o], p.state.args;
    && (p.collected < sp.MaxNum() || sp.allowExtra)
    && args != []
    && Recognize(cfg, Last(args)) == Unclassified
    && reserved < |args|
    && (cfg.validateOptional ==> sp.accepts(Last(args)))
  }

  function TakeOptional(cfg: Settings, p: Progress, o: nat, reserved: nat): (r: Progress)
    requires p.state.Fits(cfg) && o < |cfg.options|
    ensures r.state.Fits(cfg)
    decreases |p.state.args|
  {
    var s := p.state;
    if Takes(cfg, p, o, reserved) then
      TakeOptional(cfg, GiveCounted(cfg, p.(state := s.(args := ButLast(s.args))), o, Last(s.args)), o, reserved)
    else p
  }

  predicate EndsList(cfg: Settings, args: seq<Token>) {
    args != [] && Recognize(cfg, Last(args)) == PositionalMark
  }

  function Closed(cfg: Settings, s: State): (r: State)
    ensures r.results == s.results
  {
    if EndsList(cfg, s.args) then s.(args := ButLast(s.args)) else s
  }

  /** An option that may go without arguments and got none has the value of its flag. */
  function Defaulted(cfg: Settings, p: Progress, o: nat, name: Token): (r: Option<State>)
    requires p.state.Fits(cfg) && o < |cfg.options|
    ensures r.Some? ==> r.value.Fits(cfg)
  {
    var sp := cfg.options[o];
    if sp.MinNum() == 0 && sp.MaxNum() > 0 && p.collected == 0 then
      var flag := sp.flagValue(name, []);
      if flag.None? then None else Some(Give(cfg, p.state, o, flag.value))
    else Some(p.state)
  }

  /** A group of results that was not completed is filled up, or refused. */
  function Completed(cfg: Settings, s: State, o: nat, collected: nat): (r: Option<State>)
    requires s.Fits(cfg) && o < |cfg.options|
    ensures r.Some? ==> r.value.Fits(cfg)
  {
    var sp := cfg.options[o];
    if sp.MinNum() > 0 && sp.typeMax > 0 && collected % sp.typeMax != 0 then
      if sp.typeMax != sp.typeMin then Some(Fill(cfg, s, o)) else None
    else Some(s)
  }

  function PushedBack(s: State, rest: Token): (r: State)
    ensures r.results == s.results
  {
    if rest == [] then s else s.(args := s.args + [[MINUS] + rest])
  }

  /** Where the option stops taking arguments, before a mark behind them is looked for. */
  function Taken(cfg: Settings, p: Progress, o: nat): (r: Progress)
    requires p.state.Fits(cfg) && o < |cfg.options|
    ensures r.state.Fits(cfg)
  {
    if WantsMore(cfg, p, o) then TakeOptional(cfg, p, o, Remaining(cfg.options, p.state.results)) else p
  }

  predicate WantsMore(cfg: Settings, p: Progress, o: nat)
    requires o < |cfg.options|
  {
    cfg.options[o].MaxNum() > p.collected || cfg.options[o].allowExtra
  }

  /** From the required arguments on; None stands for the exceptions. */
  function Ending(cfg: Settings, got: Progress, o: nat, parts: Parts): (r: Option<State>)
    requires got.state.Fits(cfg) && o < |cfg.options|
    ensures r.Some? ==> r.value.Fits(cfg)
  {
    var sp, all := cfg.options[o], Taken(cfg, got, o);
    var done :=
      if WantsMore(cfg, got, o) then Defaulted(cfg, all.(state := Closed(cfg, all.state)), o, parts.name)
      else Some(all.state);
    if done.None? then None else
      var full := Completed(cfg, done.value, o, all.collected);
      if full.None? then None else Some(PushedBack(full.value, RestLeft(sp, parts)))
  }

  /** An option found by the name in the next token; None stands for the exceptions. */
  function ParseOption(cfg: Settings, s: State, o: nat, parts: Parts): (r: Option<(State, Use)>)
    requires s.Fits(cfg) && o < |cfg.options| && s.args != []
    ensures r.Some? ==> r.value.0.Fits(cfg)
  {
    var sp, cur, args := cfg.options[o], Last(s.args), ButLast(s.args);
    var own := Own(cfg, Parted(cfg, s.(args := args), o), o, parts);
    if own.None? then None else
      var got := Gather(cfg, own.value, o, sp.MinNum());
      if sp.MinNum() > got.collected || Ending(cfg, got, o, parts).None? then None else
        var left := Taken(cfg, got, o).state.args;
        var taken := if |left| <= |args| then args[|left|..] else [];
        var closed := WantsMore(cfg, got, o) && EndsList(cfg, left);
        Some((Ending(cfg, got, o, parts).value, Named(o, cur, parts, taken, closed, RestLeft(sp, parts))))
  }

  function PartsOf(kind: Classifier, cur: Token): Option<Parts> {
    match kind
    case Long => SplitLong(cur)
    case Short => SplitShort(cur)
    case WindowsStyle => SplitWindowsStyle(cur)
    case _ => None
  }

  /** A long name behind one dash, where the application allows that. */
  predicate IsNonStandard(cfg: Settings, kind: Classifier, cur: Token) {
    cfg.nonStandard && kind == Short && |cur| > 2 && SplitLong([MINUS] + cur).Some?
    && FirstMatch(cfg.options, 0, Short, SplitLong([MINUS] + cur).value.name) < |cfg.options|
  }

  function ParseArg(cfg: Settings, s: State, kind: Classifier): (r: Option<(State, Use)>)
    requires s.Fits(cfg) && s.args != []
    ensures r.Some? ==> r.value.0.Fits(cfg)
  {
    var cur := Last(s.args);
    if PartsOf(kind, cur).None? then None else
      var parts := PartsOf(kind, cur).value;
      var o := FirstMatch(cfg.options, 0, kind, parts.name);
      if o < |cfg.options| then ParseOption(cfg, s, o, parts)
      else if IsNonStandard(cfg, kind, cur) then
        var long := SplitLong([MINUS] + cur).value;
        ParseOption(cfg, s, FirstMatch(cfg.options, 0, Short, long.name), long)
      else Some((s.(args := ButLast(s.args), missing := s.missing + [(kind, cur)]), Leftover(kind, cur)))
  }

  // ---------------------------------------------------------------- positional arguments

  predicate StillRequired(cfg: Settings, s: State, token: Token, i: nat)
    requires s.Fits(cfg) && i < |cfg.options|
  {
    var sp := cfg.options[i];
    && sp.positional && sp.required && |s.results[i]| < sp.ItemsMin()
    && (cfg.validatePositionals ==> sp.accepts(token))
  }

  predicate HasRoom(cfg: Settings, s: State, token: Token, i: nat)
    requires s.Fits(cfg) && i < |cfg.options|
  {
    var sp := cfg.options[i];
    && sp.positional && (|s.results[i]| < sp.ItemsMax() || sp.allowExtra)
    && (cfg.validatePositionals ==> sp.accepts(token))
  }

  function FirstRequired(cfg: Settings, s: State, token: Token, i: nat): (r: nat)
    requires s.Fits(cfg) && i <= |cfg.options|
    ensures i <= r <= |cfg.options|
    decreases |cfg.options| - i
  {
    if i == |cfg.options| || StillRequired(cfg, s, token, i) then i else FirstRequired(cfg, s, token, i + 1)
  }

  function FirstRoom(cfg: Settings, s: State, token: Token, i: nat): (r: nat)
    requires s.Fits(cfg) && i <= |cfg.options|
    ensures i <= r <= |cfg.options|
    decreases |cfg.options| - i
  {
    if i == |cfg.options| || HasRoom(cfg, s, token, i) then i else FirstRoom(cfg, s, token, i + 1)
  }

  /** At the end of the line the required positional options come first. */
  function PositionalFor(cfg: Settings, s: State): (r: nat)
    requires s.Fits(cfg) && s.args != []
    ensures r <= |cfg.options|
  {
    var token := Last(s.args);
    var o :=
      if cfg.positionalsAtEnd && |s.args| <= Remaining(cfg.options, s.results) then FirstRequired(cfg, s, token, 0)
      else |cfg.options|;
    if o < |cfg.options| then o else FirstRoom(cfg, s, token, 0)
  }

  /** Everything that is pending, left over. */
  function AllLeftover(s: State): (r: (State, seq<Use>))
    ensures r.0.results == s.results
    decreases |s.args|
  {
    if s.args == [] then (s, []) else
      var token := Last(s.args);
      var more := AllLeftover(s.(args := ButLast(s.args), missing := s.missing + [(Unclassified, token)]));
      (more.0, [Leftover(Unclassified, token)] + more.1)
  }

  function ParsePositional(cfg: Settings, s: State): (r: Option<(State, seq<Use>)>)
    requires s.Fits(cfg) && s.args != []
    ensures r.Some? ==> r.value.0.Fits(cfg)
  {
    var token, o := Last(s.args), PositionalFor(cfg, s);
    if o < |cfg.options| then
      Some((Give(cfg, Parted(cfg, s, o), o, token).(args := ButLast(s.args)), [Positional(o, token)]))
    else if cfg.positionalsAtEnd then None
    else
      var one := s.(args := ButLast(s.args), missing := s.missing + [(Unclassified, token)]);
      var more := if cfg.prefixCommand then AllLeftover(one) else (one, []);
      Some((more.0, [Leftover(Unclassified, token)] + more.1))
  }

  // ---------------------------------------------------------------- the loop

  function ParseSingle(cfg: Settings, s: State): (r: Option<(State, seq<Use>)>)
    requires s.Fits(cfg) && s.args != []
    ensures r.Some? ==> r.value.0.Fits(cfg)
  {
    var token := Last(s.args);
    var kind := if s.positionalOnly then Unclassified else Recognize(cfg, token);
    match kind
    case PositionalMark =>
      Some((s.(args := ButLast(s.args), positionalOnly := true, missing := s.missing + [(kind, MARK)]),
            [Leftover(kind, token)]))
    case Unclassified =>
      var r := ParsePositional(cfg, s);
      if r.None? then None
      else Some((r.value.0.(positionalOnly := r.value.0.positionalOnly || cfg.positionalsAtEnd), r.value.1))
    case _ =>
      var r := ParseArg(cfg, s, kind);
      if r.None? then None else Some((r.value.0, [r.value.1]))
  }

  // ---------------------------------------------------------------- every token is accounted for once

  /** The arguments that are left lie at the bottom of the stack as they lay before. */
  ghost predicate Left(after: State, before: State) {
    && |after.args| <= |before.args| && after.args == before.args[..|after.args|]
    && after.missing == before.missing
  }

  lemma {:induction false} GatherLeaves(cfg: Settings, p: Progress, o: nat, least: nat)
    requires p.state.Fits(cfg) && o < |cfg.options|
    ensures Left(Gather(cfg, p, o, least).state, p.state)
    decreases |p.state.args|
  {
    var s := p.state;
    if least > p.collected && s.args != [] {
      var q := GiveCounted(cfg, p.(state := s.(args := ButLast(s.args))), o, Last(s.args));
      GatherLeaves(cfg, q, o, least);
      LeftTwice(Gather(cfg, q, o, least).state, s);
    }
  }

  lemma LeftTwice(after: State, s: State)
    requires s.args != [] && Left(after, s.(args := ButLast(s.args)))
    ensures Left(after, s)
  {
    assert ButLast(s.args)[..|after.args|] == s.args[..|after.args|];
  }

  lemma {:induction false} TakeOptionalLeaves(cfg: Settings, p: Progress, o: nat, reserved: nat)
    requires p.state.Fits(cfg) && o < |cfg.options|
    ensures Left(TakeOptional(cfg, p, o, reserved).state, p.state)
    decreases |p.state.args|
  {
    var s := p.state;
    if Takes(cfg, p, o, reserved) {
      var q := GiveCounted(cfg, p.(state := s.(args := ButLast(s.args))), o, Last(s.args));
      TakeOptionalLeaves(cfg, q, o, reserved);
      LeftTwice(TakeOptional(cfg, q, o, reserved).state, s);
    }
  }

  lemma TakenLeaves(cfg: Settings, p: Progress, o: nat)
    requires p.state.Fits(cfg) && o < |cfg.options|
    ensures Left(Taken(cfg, p, o).state, p.state)
  {
    hide TakeOptional, Remaining;
    TakeOptionalLeaves(cfg, p, o, Remaining(cfg.options, p.state.results));
  }

  lemma EndingArgs(cfg: Settings, got: Progress, o: nat, parts: Parts)
    requires got.state.Fits(cfg) && o < |cfg.options|
    ensures var left, r := Taken(cfg, got, o).state, Ending(cfg, got, o, parts);
      var base := if WantsMore(cfg, got, o) && EndsList(cfg, left.args) then ButLast(left.args) else left.args;
      var rest := RestLeft(cfg.options[o], parts);
      var args := if rest == [] then base else base + [[MINUS] + rest];
      r.Some? ==> r.value.args == args && r.value.missing == left.missing
  {
    hide Taken, WantsMore, RestLeft, EndsList;
  }

  lemma OwnLeaves(cfg: Settings, s: State, o: nat, parts: Parts)
    requires s.Fits(cfg) && o < |cfg.options|
    ensures var r := Own(cfg, Parted(cfg, s, o), o, parts);
      r.Some? ==> r.value.state.args == s.args && r.value.state.missing == s.missing
  {
  }

  /** The step of an option, undone, gives the stack it found. */
  lemma OptionAccounts(cfg: Settings, s: State, o: nat, parts: Parts)
    requires s.Fits(cfg) && o < |cfg.options| && s.args != []
    requires parts.rest != [] ==> SplitShort(Last(s.args)) == Some(parts)
    ensures var r := ParseOption(cfg, s, o, parts);
      r.Some? ==> var (t, use) := r.value;
        Sound(use, t.args) && Undo(use, t.args) == s.args && t.missing == s.missing && !use.Leftover?
  {
    var r := ParseOption(cfg, s, o, parts);
    if r.Some? {
      hide Own, Parted, Gather, Taken, Ending, WantsMore, EndsList, RestLeft, Sound, Undo, Spec.MinNum;
      var (t, use) := r.value;
      var popped := s.(args := ButLast(s.args));
      OwnLeaves(cfg, popped, o, parts);
      var own := Own(cfg, Parted(cfg, popped, o), o, parts).value;
      var got := Gather(cfg, own, o, cfg.options[o].MinNum());
      GatherLeaves(cfg, own, o, cfg.options[o].MinNum());
      TakenLeaves(cfg, got, o);
      EndingArgs(cfg, got, o, parts);
      MarkEnds(cfg, Taken(cfg, got, o).state.args);
      RestOfCluster(cfg.options[o], Last(s.args), parts);
      StackUndone(s.args, got.state.args, Taken(cfg, got, o).state.args, t.args, use);
    }
  }

  lemma MarkEnds(cfg: Settings, left: seq<Token>)
    ensures EndsList(cfg, left) ==> left != [] && Last(left) == MARK
  {
  }

  lemma RestOfCluster(sp: Spec, cur: Token, parts: Parts)
    requires parts.rest != [] ==> SplitShort(cur) == Some(parts)
    ensures var rest := RestLeft(sp, parts);
      rest != [] ==> |cur| == |rest| + 2 && cur[0] == MINUS && cur[2..] == rest
  {
  }

  /** A stack of which an option has taken its name, its arguments and the mark behind them. */
  lemma StackUndone(before: seq<Token>, got: seq<Token>, left: seq<Token>, after: seq<Token>, use: Use)
    requires before != [] && |got| <= |ButLast(before)| && got == ButLast(before)[..|got|]
    requires |left| <= |got| && left == got[..|left|]
    requires use.Named? && use.token == Last(before) && use.taken == ButLast(before)[|left|..]
    requires use.closed ==> left != [] && Last(left) == MARK
    requires use.rest != [] ==>
      |use.token| == |use.rest| + 2 && use.token[0] == MINUS && use.token[2..] == use.rest
    requires var base := if use.closed then ButLast(left) else left;
      after == if use.rest == [] then base else base + [[MINUS] + use.rest]
    ensures Sound(use, after) && Undo(use, after) == before
  {
    var base := if use.closed then ButLast(left) else left;
    assert base + (if use.closed then [MARK] else []) == left;
    assert left == ButLast(before)[..|left|];
    assert ButLast(before)[..|left|] + ButLast(before)[|left|..] == ButLast(before);
    assert ButLast(before) + [Last(before)] == before;
    if use.rest != [] {
      assert ButLast(after) == base;
    }
  }

  lemma NoUses(use: Use)
    ensures [use] + [] == [use]
  {
  }

  ghost predicate Accounts(s: State, r: Option<(State, seq<Use>)>) {
    r.Some? ==> var (t, uses) := r.value;
      && uses != [] && AllSound(uses, t.args) && Rebuild(uses, t.args) == s.args
      && t.missing == s.missing + Leftovers(uses)
  }

  lemma OneUse(use: Use, after: seq<Token>)
    ensures AllSound([use], after) == Sound(use, after) && Rebuild([use], after) == Undo(use, after)
    ensures Leftovers([use]) == if use.Leftover? then [(use.kind, use.token)] else []
  {
    assert ButLast([use]) == [];
  }

  lemma {:induction false} UsesConcat(a: seq<Use>, b: seq<Use>, after: seq<Token>)
    ensures Rebuild(a + b, after) == Rebuild(a, Rebuild(b, after))
    ensures AllSound(a + b, after) == (AllSound(b, after) && AllSound(a, Rebuild(b, after)))
    ensures Leftovers(a + b) == Leftovers(a) + Leftovers(b)
    decreases |b|
  {
    hide Undo, Sound;
    if b == [] {
      assert a + b == a;
      assert Leftovers(a) + [] == Leftovers(a);
    } else {
      assert ButLast(a + b) == a + ButLast(b) && Last(a + b) == Last(b);
      UsesConcat(a, ButLast(b), Undo(Last(b), after));
      var tail := if Last(b).Leftover? then [(Last(b).kind, Last(b).token)] else [];
      assert (Leftovers(a) + Leftovers(ButLast(b))) + tail == Leftovers(a) + (Leftovers(ButLast(b)) + tail);
    }
  }

  lemma {:induction false} AllLeftoverAccounts(s: State)
    ensures var (t, uses) := AllLeftover(s);
      t.args == [] && AllSound(uses, []) && Rebuild(uses, []) == s.args && t.missing == s.missing + Leftovers(uses)
    decreases |s.args|
  {
    hide AllSound, Rebuild, Leftovers;
    if s.args == [] {
      NothingDone([]);
    } else {
      var token := Last(s.args);
      var next := s.(args := ButLast(s.args), missing := s.missing + [(Unclassified, token)]);
      AllLeftoverAccounts(next);
      var use := Leftover(Unclassified, token);
      UsesConcat([use], AllLeftover(next).1, []);
      OneUse(use, ButLast(s.args));
      LeftoverAccounts(s.args, Unclassified);
    }
  }

  lemma ArgAccounts(cfg: Settings, s: State, kind: Classifier)
    requires s.Fits(cfg) && s.args != []
    ensures var r := ParseArg(cfg, s, kind);
      r.Some? ==> var (t, use) := r.value;
        Sound(use, t.args) && Undo(use, t.args) == s.args && t.missing == s.missing + Leftovers([use])
  {
    hide ParseOption, FirstMatch, Sound, SplitShort, SplitLong, SplitWindowsStyle;
    var r, cur := ParseArg(cfg, s, kind), Last(s.args);
    if r.Some? {
      OneUse(r.value.1, r.value.0.args);
      var parts := PartsOf(kind, cur).value;
      PartsRest(kind, cur);
      var o := FirstMatch(cfg.options, 0, kind, parts.name);
      if o < |cfg.options| {
        OptionAccounts(cfg, s, o, parts);
      } else if IsNonStandard(cfg, kind, cur) {
        var long := SplitLong([MINUS] + cur).value;
        LongHasNoRest([MINUS] + cur);
        OptionAccounts(cfg, s, FirstMatch(cfg.options, 0, Short, long.name), long);
      } else {
        LeftoverAccounts(s.args, kind);
      }
    }
  }

  lemma LeftoverAccounts(args: seq<Token>, kind: Classifier)
    requires args != []
    ensures Sound(Leftover(kind, Last(args)), ButLast(args)) && Undo(Leftover(kind, Last(args)), ButLast(args)) == args
  {
  }

  lemma UndoPositional(o: nat, args: seq<Token>)
    requires args != []
    ensures Sound(Positional(o, Last(args)), ButLast(args)) && Undo(Positional(o, Last(args)), ButLast(args)) == args
  {
  }

  lemma PartsRest(kind: Classifier, cur: Token)
    ensures PartsOf(kind, cur).Some? && PartsOf(kind, cur).value.rest != [] ==>
      SplitShort(cur) == PartsOf(kind, cur)
  {
  }

  lemma LongHasNoRest(cur: Token)
    ensures SplitLong(cur).Some? ==> SplitLong(cur).value.rest == []
  {
  }

  lemma PositionalAccounts(cfg: Settings, s: State)
    requires s.Fits(cfg) && s.args != []
    ensures Accounts(s, ParsePositional(cfg, s))
  {
    hide PositionalFor, AllLeftover, Rebuild, AllSound, Leftovers, Parted;
    var token, o := Last(s.args), PositionalFor(cfg, s);
    assert ButLast(s.args) + [token] == s.args;
    if o < |cfg.options| {
      OneUse(Positional(o, token), ButLast(s.args));
      UndoPositional(o, s.args);
      assert s.missing + [] == s.missing;
    } else if !cfg.positionalsAtEnd {
      var use := Leftover(Unclassified, token);
      var one := s.(args := ButLast(s.args), missing := s.missing + [(Unclassified, token)]);
      OneUse(use, ButLast(s.args));
      AllLeftoverAccounts(one);
      UsesConcat([use], AllLeftover(one).1, []);
      NoUses(use);
    }
  }

  lemma SingleAccounts(cfg: Settings, s: State)
    requires s.Fits(cfg) && s.args != []
    ensures Accounts(s, ParseSingle(cfg, s))
  {
    hide ParsePositional, ParseArg, Rebuild, AllSound, Leftovers, SplitShort, SplitLong;
    var token := Last(s.args);
    var kind := if s.positionalOnly then Unclassified else Recognize(cfg, token);
    if kind == PositionalMark {
      LeftoverAccounts(s.args, kind);
      OneUse(Leftover(kind, token), ButLast(s.args));
    } else if kind == Unclassified {
      PositionalAccounts(cfg, s);
    } else {
      ArgAccounts(cfg, s, kind);
      var r := ParseArg(cfg, s, kind);
      if r.Some? {
        OneUse(r.value.1, r.value.0.args);
      }
    }
  }

  // ---------------------------------------------------------------- the loop ends

  /** The length of what is pending, each token with one more. */
  ghost function Pending(args: seq<Token>): nat
    decreases |args|
  {
    if args == [] then 0 else Pending(ButLast(args)) + |Last(args)| + 1
  }

  lemma {:induction false} PendingConcat(a: seq<Token>, b: seq<Token>)
    ensures Pending(a + b) == Pending(a) + Pending(b)
    decreases |b|
  {
    if b == [] {
      assert a + b == a;
    } else {
      assert ButLast(a + b) == a + ButLast(b);
      PendingConcat(a, ButLast(b));
    }
  }

  lemma UndoGrows(use: Use, after: seq<Token>)
    requires Sound(use, after)
    ensures Pending(after) < Pending(Undo(use, after))
  {
    if use.Named? {
      var base := if use.rest == [] || after == [] then after else ButLast(after);
      var mark := if use.closed then [MARK] else [];
      PendingConcat(base + mark + use.taken, [use.token]);
      PendingConcat(base + mark, use.taken);
      PendingConcat(base, mark);
      assert ButLast([use.token]) == [];
    } else {
      PendingConcat(after, [use.token]);
      assert ButLast([use.token]) == [];
    }
  }

  lemma {:induction false} RebuildGrows(uses: seq<Use>, after: seq<Token>)
    requires AllSound(uses, after)
    ensures Pending(after) + |uses| <= Pending(Rebuild(uses, after))
    decreases |uses|
  {
    if uses != [] {
      UndoGrows(Last(uses), after);
      RebuildGrows(ButLast(uses), Undo(Last(uses), after));
    }
  }

  /** Every step of the loop makes what is pending strictly smaller, even when it pushes a cluster back. */
  lemma SingleShrinks(cfg: Settings, s: State)
    requires s.Fits(cfg) && s.args != []
    ensures ParseSingle(cfg, s).Some? ==> Pending(ParseSingle(cfg, s).value.0.args) < Pending(s.args)
  {
    hide ParseSingle, Pending;
    SingleAccounts(cfg, s);
    var r := ParseSingle(cfg, s);
    if r.Some? {
      RebuildGrows(r.value.1, r.value.0.args);
    }
  }

  /** The whole command line; None stands for an exception. */
  function Parse(cfg: Settings, s: State): (r: Option<(State, seq<Use>)>)
    requires s.Fits(cfg)
    ensures r.Some? ==> r.value.0.Fits(cfg) && r.value.0.args == []
    decreases Pending(s.args)
  {
    if s.args == [] then Some((s, [])) else
      SingleShrinks(cfg, s);
      var one := ParseSingle(cfg, s);
      if one.None? then None else
        var more := Parse(cfg, one.value.0);
        if more.None? then None else Some((more.value.0, one.value.1 + more.value.1))
  }

  /**
   A run that throws nothing accounts for every token and every letter of a cluster exactly once: undoing the
   uses from the last to the first rebuilds the command line. The list of leftovers is what the uses say.
   */
  lemma {:induction false} ParseAccounts(cfg: Settings, s: State)
    requires s.Fits(cfg)
    ensures var r := Parse(cfg, s);
      r.Some? ==> var (t, uses) := r.value;
        AllSound(uses, []) && Rebuild(uses, []) == s.args && t.missing == s.missing + Leftovers(uses)
    decreases Pending(s.args)
  {
    hide ParseSingle, Pending, Rebuild, AllSound, Leftovers, Parse;
    ParseStep(cfg, s);
    if s.args == [] {
      NothingDone(s.args);
    } else {
      SingleShrinks(cfg, s);
      SingleAccounts(cfg, s);
      var one := ParseSingle(cfg, s);
      if one.Some? {
        ParseAccounts(cfg, one.value.0);
        var more := Parse(cfg, one.value.0);
        if more.Some? {
          UsesConcat(one.value.1, more.value.1, []);
        }
      }
    }
  }

  lemma NothingDone(args: seq<Token>)
    ensures AllSound([], args) && Rebuild([], args) == args && Leftovers([]) == []
  {
  }

  lemma ParseStep(cfg: Settings, s: State)
    requires s.Fits(cfg)
    ensures Parse(cfg, s) ==
      if s.args == [] then Some((s, [])) else
        var one := ParseSingle(cfg, s);
        if one.None? then None else
          var more := Parse(cfg, one.value.0);
          if more.None? then None else Some((more.value.0, one.value.1 + more.value.1))
  {
    hide ParseSingle;
  }

  // ---------------------------------------------------------------- clusters

  lemma NoneNeeded(sp: Spec)
    requires sp.Valid() && sp.MaxNum() == 0
    ensures sp.MinNum() == 0
  {
    if sp.typeMin > 0 && sp.expectedMin > 0 {
      Positive(sp.typeMax, sp.expectedMax);
      Positive(sp.typeMax, sp.expectedMin);
    } else if sp.expectedMin == 0 {
      assert sp.ItemsMin() == 0;
    }
  }

  lemma Positive(a: nat, b: nat)
    requires a > 0 && b > 0
    ensures Product(a, b) > 0
  {
    assert a * b >= b by {
      C.Scaled(b, a);
    }
  }

  /** One flag: its value is added, and the rest of the cluster goes back onto the stack. */
  lemma FlagStep(cfg: Settings, s: State, o: nat, parts: Parts)
    requires s.Fits(cfg) && o < |cfg.options| && s.args != [] && parts.value == []
    requires var sp := cfg.options[o]; sp.Valid() && sp.MaxNum() == 0 && !sp.allowExtra
    ensures var r, flag := ParseOption(cfg, s, o, parts), cfg.options[o].flagValue(parts.name, []);
      var t := Parted(cfg, s.(args := ButLast(s.args)), o);
      r.Some? == flag.Some? &&
      (r.Some? ==> r.value.0 == PushedBack(Give(cfg, t, o, flag.value), parts.rest))
  {
    hide Parted, Give, Results;
    NoneNeeded(cfg.options[o]);
  }

  lemma LetterAlone(cfg: Settings, c: byte, rest: Token)
    requires rest != [] && Recognize(cfg, [MINUS, c] + rest) == Short
    ensures Recognize(cfg, [MINUS, c]) == Short
    ensures SplitShort([MINUS, c] + rest) == Some(Parts([c], [], rest))
    ensures SplitShort([MINUS, c]) == Some(Parts([c], [], []))
  {
    hide FirstMatch;
    var cur := [MINUS, c] + rest;
    assert cur[1..2] == [c] && cur[2..] == rest;
    assert [MINUS, c][1..2] == [c] && [MINUS, c][2..] == [];
  }

  /** A cluster of flags means what its first letter and the others written apart mean, for the whole run. */
  lemma ClusterUnfolds(cfg: Settings, s: State, c: byte, rest: Token)
    requires s.Fits(cfg) && s.args != [] && !s.positionalOnly && rest != []
    requires Last(s.args) == [MINUS, c] + rest && Recognize(cfg, [MINUS, c] + rest) == Short
    requires var o := FirstMatch(cfg.options, 0, Short, [c]);
      o < |cfg.options| && cfg.options[o].Valid() && cfg.options[o].MaxNum() == 0 && !cfg.options[o].allowExtra
    ensures var apart := s.(args := ButLast(s.args) + [[MINUS] + rest] + [[MINUS, c]]);
      Parse(cfg, s).Some? == Parse(cfg, apart).Some? &&
      (Parse(cfg, s).Some? ==> Parse(cfg, s).value.0 == Parse(cfg, apart).value.0)
  {
    hide Parse, ParseOption, FirstMatch, Recognize, SplitShort, Give, Parted;
    var o := FirstMatch(cfg.options, 0, Short, [c]);
    var apart := s.(args := ButLast(s.args) + [[MINUS] + rest] + [[MINUS, c]]);
    LetterAlone(cfg, c, rest);
    FlagStep(cfg, s, o, Parts([c], [], rest));
    FlagStep(cfg, apart, o, Parts([c], [], []));
    assert ButLast(apart.args) == ButLast(s.args) + [[MINUS] + rest];
    FlagCommutes(cfg, s.(args := ButLast(s.args)), apart.(args := ButLast(apart.args)), o,
                 cfg.options[o].flagValue([c], []), rest);
    ParseStep(cfg, s);
    ParseStep(cfg, apart);
  }

  lemma FlagCommutes(cfg: Settings, a: State, b: State, o: nat, flag: Option<Token>, rest: Token)
    requires a.Fits(cfg) && b.Fits(cfg) && o < |cfg.options| && rest != []
    requires b == a.(args := a.args + [[MINUS] + rest])
    ensures flag.Some? ==>
      PushedBack(Give(cfg, Parted(cfg, a, o), o, flag.value), rest)
        == PushedBack(Give(cfg, Parted(cfg, b, o), o, flag.value), [])
  {
    hide Results;
  }
}
