/**
 What a run over a command line may do, told without the parser: which tokens name an option and with which value, what
 counts as an argument, which option gets it and where an option stops. A run without exceptions is such a story.
 */
module ArgumentStory {
  import opened Bytes
  import ConfigValue
  import opened Arguments
  import opened ArgumentResults

  // ---------------------------------------------------------------- how tokens are spelled

  /** No name begins with a dash, a blank or control byte, or an exclamation mark. */
  predicate BeginsName(c: byte) {
    c > ' ' as int && c != '-' as int && c != '!' as int
  }

  predicate LooksLong(token: Token) {
    |token| > 2 && token[0] == '-' as int && token[1] == '-' as int && BeginsName(token[2])
  }

  predicate LooksShort(token: Token) {
    |token| > 1 && token[0] == '-' as int && BeginsName(token[1])
  }

  predicate LooksWindows(token: Token) {
    |token| > 1 && token[0] == '/' as int && BeginsName(token[1])
  }

  /** Behind the dashes, a name with a value behind the first separator, or a name alone. */
  predicate IsPair(token: Token, dashes: nat, separator: byte, name: Token, value: Token) {
    && dashes <= |token| && separator !in name
    && (token[dashes..] == name + [separator] + value || (token[dashes..] == name && value == []))
  }

  /** An option has long names, short names, or may be called by either. */
  datatype How = ByLong | ByShort | ByEither

  predicate Called(sp: Spec, how: How, name: Token) {
    (how != ByShort && sp.long(name)) || (how != ByLong && sp.short(name))
  }

  /** The first option that goes by a name. */
  ghost predicate First(options: seq<Spec>, how: How, name: Token, o: nat) {
    o < |options| && Called(options[o], how, name) && forall k :: 0 <= k < o ==> !Called(options[k], how, name)
  }

  ghost predicate Nobody(options: seq<Spec>, how: How, name: Token) {
    forall k :: 0 <= k < |options| ==> !Called(options[k], how, name)
  }

  /** A dash and a digit are a negative number, unless the digit is the name of an option. */
  ghost predicate IsNegative(cfg: Settings, token: Token)
    requires LooksShort(token)
  {
    '0' as int <= token[1] <= '9' as int && Nobody(cfg.options, ByShort, [token[1]])
  }

  /** What is neither the mark nor looks like an option. */
  ghost predicate IsArgument(cfg: Settings, token: Token) {
    && token != ['-' as int, '-' as int]
    && !LooksLong(token)
    && (LooksShort(token) ==> IsNegative(cfg, token))
    && !(cfg.windowsStyle && LooksWindows(token))
  }

  /** `--name=value`, `--name`, `-nrest`, `-name=value` where that is allowed, `/name:value` and `/name`. */
  ghost predicate Names(cfg: Settings, token: Token, parts: Parts, o: nat) {
    || (LooksLong(token) && parts.rest == [] && IsPair(token, 2, '=' as int, parts.name, parts.value)
        && First(cfg.options, ByLong, parts.name, o))
    || (LooksShort(token) && parts.value == [] && |parts.name| == 1 && token == ['-' as int] + parts.name + parts.rest
        && First(cfg.options, ByShort, parts.name, o))
    || (LooksShort(token) && cfg.nonStandard && |token| > 2 && Nobody(cfg.options, ByShort, [token[1]])
        && !IsNegative(cfg, token) && parts.rest == [] && IsPair(token, 1, '=' as int, parts.name, parts.value)
        && First(cfg.options, ByShort, parts.name, o))
    || (cfg.windowsStyle && LooksWindows(token) && parts.rest == []
        && IsPair(token, 1, ':' as int, parts.name, parts.value) && First(cfg.options, ByEither, parts.name, o))
  }

  ghost predicate NoPair(cfg: Settings, token: Token, dashes: nat, separator: byte, how: How) {
    forall name, value :: IsPair(token, dashes, separator, name, value) ==> Nobody(cfg.options, how, name)
  }

  /** It looks like an option of some kind, but no option goes by its name. */
  ghost predicate NamesNothing(cfg: Settings, token: Token, kind: Classifier) {
    match kind
    case Long =>
      && LooksLong(token)
      && NoPair(cfg, token, 2, '=' as int, ByLong)
    case Short =>
      && LooksShort(token) && !IsNegative(cfg, token) && Nobody(cfg.options, ByShort, [token[1]])
      && (cfg.nonStandard && |token| > 2 ==>
        NoPair(cfg, token, 1, '=' as int, ByShort))
    case WindowsStyle =>
      && cfg.windowsStyle && LooksWindows(token)
      && NoPair(cfg, token, 1, ':' as int, ByEither)
    case _ => false
  }

  // ---------------------------------------------------------------- a scene and what may happen next

  /** What is pending, the results so far, whether options are still looked for, and whether everything is left over. */
  datatype Scene = Scene(args: seq<Token>, results: seq<seq<Token>>, positionalOnly: bool, abandoned: bool) {
    ghost predicate Fits(cfg: Settings) { |results| == |cfg.options| }
  }

  /** How many arguments a required positional option still lacks. */
  function Lack(sp: Spec, had: nat): nat {
    if sp.positional && sp.required && had < sp.typeMin * sp.expectedMin then sp.typeMin * sp.expectedMin - had else 0
  }

  /** How many arguments the required positional options still lack, taken together. */
  function Lacking(options: seq<Spec>, results: seq<seq<Token>>): nat
    requires |options| == |results|
  {
    if options == [] then 0
    else
      Lack(options[0], |results[0]|) + Lacking(options[1..], results[1..])
  }

  /** How many arguments an option has, with what its own token brought, when k of `args` are left. */
  ghost function Collected(sp: Spec, parts: Parts, args: seq<Token>, k: nat): nat
    requires k <= |args|
  {
    OwnCount(sp, parts) + |GivenTexts(sp, args[k..])|
  }

  /** A number of arguments as an int, cut off where it would not fit. */
  function Times(a: nat, b: nat): nat {
    if a * b < 0x8000_0000 then a * b else 0x2000_0000
  }

  /** What an option must have, and what it takes at most: where that is practically everything, one use's worth. */
  function Least(sp: Spec): nat { if sp.expectedMin == 0 then 0 else sp.typeMin }

  function Most(sp: Spec): nat {
    var all := Times(sp.typeMax, sp.expectedMax);
    if all >= 0x200_0000 && !sp.allowExtra then Times(sp.typeMax, sp.expectedMin) else all
  }

  /** An option may go on when it is not full, or never is. */
  ghost predicate Hungry(sp: Spec, collected: nat) {
    collected < Most(sp) || sp.allowExtra
  }

  /** The next one of k pending tokens may be taken beyond what is required. */
  ghost predicate MayTake(cfg: Settings, sp: Spec, parts: Parts, args: seq<Token>, k: nat, reserved: nat)
    requires k <= |args|
  {
    && k > reserved && Hungry(sp, Collected(sp, parts, args, k))
    && IsArgument(cfg, args[k - 1]) && (cfg.validateOptional ==> sp.accepts(args[k - 1]))
  }

  /**
   How far an option goes on the tokens behind its own: it takes what it must have, whatever that looks like, until g
   are left, and then arguments while it may, until m are left; and it takes the mark behind them.
   */
  ghost predicate Goes(cfg: Settings, scene: Scene, o: nat, parts: Parts, g: nat, m: nat, closed: bool)
    requires scene.Fits(cfg) && o < |cfg.options| && scene.args != [] && m <= g < |scene.args|
  {
    var sp, args := cfg.options[o], ButLast(scene.args);
    var had := scene.results[o] + Parting(sp, scene.results[o]) + OwnTexts(sp, parts) + GivenTexts(sp, args[g..]);
    var reserved := Lacking(cfg.options, scene.results[o := had]);
    && (forall k :: g < k <= |args| ==> Collected(sp, parts, args, k) < Least(sp))
    && Collected(sp, parts, args, g) >= Least(sp)
    && (forall k :: m < k <= g ==> MayTake(cfg, sp, parts, args, k, reserved))
    && !MayTake(cfg, sp, parts, args, m, reserved)
    && closed == (Hungry(sp, Collected(sp, parts, args, g)) && m > 0 && args[m - 1] == ['-' as int, '-' as int])
  }

  ghost predicate GoesTo(cfg: Settings, scene: Scene, o: nat, parts: Parts, m: nat, closed: bool)
    requires scene.Fits(cfg) && o < |cfg.options| && m < |scene.args|
  {
    exists g :: m <= g < |scene.args| && Goes(cfg, scene, o, parts, g, m, closed)
  }

  /** The value of a flag is refused, and so are values that do not fill their last group where all groups are alike. */
  ghost predicate Accepted(sp: Spec, parts: Parts, collected: nat) {
    && (Most(sp) == 0 ==> sp.flagValue(parts.name, parts.value).Some?)
    && (Least(sp) == 0 && Most(sp) > 0 && collected == 0 ==> sp.flagValue(parts.name, []).Some?)
    && (Least(sp) > 0 && sp.typeMax > 0 && collected % sp.typeMax != 0 ==> sp.typeMax != sp.typeMin)
  }

  /** A positional option that lacks arguments it must have, or has place for one more; and takes this one. */
  predicate Wants(cfg: Settings, sp: Spec, had: nat, token: Token, lacking: bool) {
    && sp.positional
    && (if lacking then sp.required && had < sp.typeMin * sp.expectedMin
        else had < Times(sp.typeMax, sp.expectedMax) || sp.allowExtra)
    && (cfg.validatePositionals ==> sp.accepts(token))
  }

  /** The first option that wants it. */
  ghost predicate FirstOf(cfg: Settings, scene: Scene, token: Token, lacking: bool, o: nat)
    requires scene.Fits(cfg)
  {
    && o < |cfg.options| && Wants(cfg, cfg.options[o], |scene.results[o]|, token, lacking)
    && forall k :: 0 <= k < o ==> !Wants(cfg, cfg.options[k], |scene.results[k]|, token, lacking)
  }

  /** What is left goes to the options that lack it, once no more is left than they lack. */
  ghost predicate Scarce(cfg: Settings, scene: Scene)
    requires scene.Fits(cfg)
  {
    cfg.positionalsAtEnd && |scene.args| <= Lacking(cfg.options, scene.results)
  }

  ghost predicate Receives(cfg: Settings, scene: Scene, token: Token, o: nat)
    requires scene.Fits(cfg)
  {
    if Scarce(cfg, scene) && exists k :: FirstOf(cfg, scene, token, true, k) then FirstOf(cfg, scene, token, true, o)
    else FirstOf(cfg, scene, token, false, o)
  }

  /** An option takes what is behind its token, and the rest of a cluster of flags goes back. */
  ghost predicate Uses(cfg: Settings, scene: Scene, use: Use)
    requires scene.Fits(cfg) && scene.args != [] && use.Named? && use.option < |cfg.options|
  {
    var sp, m := cfg.options[use.option], |scene.args| - 1 - |use.taken|;
    && use.rest == (if Most(sp) == 0 then use.parts.rest else [])
    && |use.taken| < |scene.args| && use.taken == ButLast(scene.args)[m..]
    && GoesTo(cfg, scene, use.option, use.parts, m, use.closed)
    && Accepted(sp, use.parts, OwnCount(sp, use.parts) + |GivenTexts(sp, use.taken)|)
  }

  /** What may happen to the next token. */
  ghost predicate Happens(cfg: Settings, scene: Scene, use: Use)
    requires scene.Fits(cfg)
  {
    && scene.args != [] && use.token == Last(scene.args)
    && match use
       case Named(o, token, parts, taken, closed, rest) =>
         !scene.positionalOnly && !scene.abandoned && Names(cfg, token, parts, o) && Uses(cfg, scene, use)
       case Positional(o, token) =>
         !scene.abandoned && (scene.positionalOnly || IsArgument(cfg, token)) && Receives(cfg, scene, token, o)
       case Leftover(kind, token) =>
         match kind
         case PositionalMark => !scene.abandoned && !scene.positionalOnly && token == ['-' as int, '-' as int]
         case Unclassified =>
           scene.abandoned ||
           ((scene.positionalOnly || IsArgument(cfg, token)) && !cfg.positionalsAtEnd
            && forall o :: !Receives(cfg, scene, token, o))
         case _ => !scene.abandoned && !scene.positionalOnly && NamesNothing(cfg, token, kind)
  }

  /** The scene after it. */
  ghost function Next(cfg: Settings, scene: Scene, use: Use): (r: Scene)
    requires scene.Fits(cfg) && Happens(cfg, scene, use)
    ensures r.Fits(cfg)
  {
    match use
    case Named(o, _, parts, taken, closed, rest) =>
      var left := ButLast(scene.args)[..|scene.args| - 1 - |taken|];
      var base := if closed && left != [] then ButLast(left) else left;
      scene.(args := base + if rest == [] then [] else [['-' as int] + rest],
             results := scene.results[o := scene.results[o] + Adds(cfg.options[o], use, scene.results[o])])
    case Positional(o, token) =>
      scene.(args := ButLast(scene.args), positionalOnly := scene.positionalOnly || cfg.positionalsAtEnd,
             results := scene.results[o := scene.results[o] + Adds(cfg.options[o], use, scene.results[o])])
    case Leftover(kind, token) =>
      scene.(args := ButLast(scene.args), positionalOnly := scene.positionalOnly || kind == PositionalMark,
             abandoned := scene.abandoned || (kind == Unclassified && cfg.prefixCommand))
  }

  /** Uses that happen one after the other until nothing is pending. */
  ghost predicate Story(cfg: Settings, scene: Scene, uses: seq<Use>)
    requires scene.Fits(cfg)
    decreases |uses|
  {
    if uses == [] then scene.args == []
    else Happens(cfg, scene, uses[0]) && Story(cfg, Next(cfg, scene, uses[0]), uses[1..])
  }

  // ---------------------------------------------------------------- the parser tells such a story: tokens

  lemma LooksAlike(cfg: Settings, token: Token)
    ensures SplitLong(token).Some? <==> LooksLong(token)
    ensures SplitShort(token).Some? <==> LooksShort(token)
    ensures SplitWindowsStyle(token).Some? <==> LooksWindows(token)
    ensures token == MARK <==> token == ['-' as int, '-' as int]
  {
  }

  lemma {:induction false} MatchIsFirst(options: seq<Spec>, i: nat, kind: Classifier, how: How, name: Token)
    requires i <= |options| && (kind == Long <==> how == ByLong) && (kind == Short <==> how == ByShort)
    ensures var o := FirstMatch(options, i, kind, name);
      && (o < |options| ==> Called(options[o], how, name))
      && forall k :: i <= k < o ==> !Called(options[k], how, name)
    decreases |options| - i
  {
    if i < |options| && !Matches(options[i], kind, name) {
      MatchIsFirst(options, i + 1, kind, how, name);
    }
  }

  lemma NegativeAlike(cfg: Settings, token: Token)
    requires LooksShort(token)
    ensures IsNegative(cfg, token) <==>
      IsDigit(token[1]) && FirstMatch(cfg.options, 0, Short, [token[1]]) == |cfg.options|
  {
    MatchIsFirst(cfg.options, 0, Short, ByShort, [token[1]]);
  }

  lemma ArgumentAlike(cfg: Settings, token: Token)
    ensures Recognize(cfg, token) == Unclassified <==> IsArgument(cfg, token)
    ensures Recognize(cfg, token) == PositionalMark <==> token == ['-' as int, '-' as int]
    ensures Recognize(cfg, token) == Long ==> LooksLong(token)
    ensures Recognize(cfg, token) == Short ==> LooksShort(token) && !IsNegative(cfg, token)
    ensures Recognize(cfg, token) == WindowsStyle ==> cfg.windowsStyle && LooksWindows(token)
  {
    LooksAlike(cfg, token);
    if LooksShort(token) {
      NegativeAlike(cfg, token);
    }
    hide SplitLong, SplitShort, SplitWindowsStyle, FirstMatch;
  }

  /** There is one way to see a name and a value in a token, and it is the parser's. */
  lemma PairAlike(token: Token, dashes: nat, separator: byte, name: Token, value: Token)
    requires dashes <= |token| && separator !in token[..dashes]
    ensures var loc := ConfigValue.FirstIndex(token, 0, separator);
      IsPair(token, dashes, separator, name, value) <==>
        && loc >= dashes && name == token[dashes..loc]
        && value == if loc < |token| then token[loc + 1..] else []
  {
    var loc, text := ConfigValue.FirstIndex(token, 0, separator), token[dashes..];
    assert forall k :: 0 <= k < dashes ==> token[k] == token[..dashes][k];
    if IsPair(token, dashes, separator, name, value) {
      assert forall k :: 0 <= k < |name| ==> text[k] == name[k] && text[k] != separator;
      assert forall k :: dashes <= k < dashes + |name| ==> token[k] == text[k - dashes];
      if text == name + [separator] + value {
        assert token[dashes + |name|] == text[|name|] == separator;
        assert text[|name| + 1..] == value && text[..|name|] == name;
      }
    } else if loc >= dashes && name == token[dashes..loc] {
      assert forall k :: 0 <= k < |name| ==> name[k] == token[dashes + k];
      if loc < |token| {
        assert text == name + [separator] + token[loc + 1..];
      }
    }
  }

  // ---------------------------------------------------------------- options by their names

  lemma NobodyMatches(options: seq<Spec>, kind: Classifier, how: How, name: Token)
    requires (kind == Long <==> how == ByLong) && (kind == Short <==> how == ByShort)
    ensures var o := FirstMatch(options, 0, kind, name);
      if o == |options| then Nobody(options, how, name) else First(options, how, name, o)
  {
    MatchIsFirst(options, 0, kind, how, name);
  }

  /** The parts of a token of some kind, and where a separator could stand in it. */
  lemma PartsAlike(kind: Classifier, token: Token)
    requires PartsOf(kind, token).Some?
    ensures var parts := PartsOf(kind, token).value;
      && (kind == Long ==>
        LooksLong(token) && parts.rest == [] && IsPair(token, 2, '=' as int, parts.name, parts.value))
      && (kind == Short ==>
        && LooksShort(token) && parts.value == [] && |parts.name| == 1 && parts.name == [token[1]]
        && token == ['-' as int] + parts.name + parts.rest)
      && (kind == WindowsStyle ==>
        LooksWindows(token) && parts.rest == [] && IsPair(token, 1, ':' as int, parts.name, parts.value))
      && kind in [Long, Short, WindowsStyle]
  {
    var parts := PartsOf(kind, token).value;
    if kind == Long {
      PairAlike(token, 2, '=' as int, parts.name, parts.value);
    } else if kind == WindowsStyle {
      PairAlike(token, 1, ':' as int, parts.name, parts.value);
    }
  }

  /** No other name and value can be seen in such a token. */
  lemma NoOtherPair(token: Token, dashes: nat, separator: byte, name: Token, value: Token, n: Token, v: Token)
    requires dashes <= |token| && separator !in token[..dashes]
    requires IsPair(token, dashes, separator, name, value) && IsPair(token, dashes, separator, n, v)
    ensures n == name && v == value
  {
    PairAlike(token, dashes, separator, name, value);
    PairAlike(token, dashes, separator, n, v);
  }

  /** What the long form of a token with one dash says. */
  lemma NonStandardAlike(token: Token)
    requires LooksShort(token) && |token| > 2
    ensures SplitLong([MINUS] + token).Some?
    ensures var long := SplitLong([MINUS] + token).value;
      long.rest == [] && IsPair(token, 1, '=' as int, long.name, long.value)
  {
    var longer := [MINUS] + token;
    var long := SplitLong(longer).value;
    PairAlike(longer, 2, '=' as int, long.name, long.value);
    assert longer[2..] == token[1..];
  }

  /** What the parser makes of a token that looks like an option: the one it names, or a leftover. */
  lemma NamesAlike(cfg: Settings, s: State, kind: Classifier)
    requires s.Fits(cfg) && s.args != [] && kind == Recognize(cfg, Last(s.args)) && kind in [Long, Short, WindowsStyle]
    ensures var r, token := ParseArg(cfg, s, kind), Last(s.args);
      || (r.Some? && r.value.1 == Leftover(kind, token) && NamesNothing(cfg, token, kind))
      || exists o: nat, parts :: Names(cfg, token, parts, o) && o < |cfg.options| && r == ParseOption(cfg, s, o, parts)
  {
    hide ParseOption, FirstMatch, Recognize, SplitLong, SplitShort, SplitWindowsStyle, IsPair, First, Nobody;
    hide LooksLong, LooksShort, LooksWindows, IsNegative;
    var token, r := Last(s.args), ParseArg(cfg, s, kind);
    ArgumentAlike(cfg, token);
    LooksAlike(cfg, token);
    var parts := PartsOf(kind, token).value;
    PartsAlike(kind, token);
    var how := if kind == Long then ByLong else if kind == Short then ByShort else ByEither;
    var o := FirstMatch(cfg.options, 0, kind, parts.name);
    NobodyMatches(cfg.options, kind, how, parts.name);
    if o < |cfg.options| {
      assert Names(cfg, token, parts, o);
    } else if kind == Short {
      ShortAlone(cfg, s, parts);
    } else {
      NoPairs(cfg, token, if kind == Long then 2 else 1, if kind == Long then '=' as int else ':' as int, how, parts);
    }
  }

  lemma OptionNamed(cfg: Settings, s: State, o: nat, parts: Parts)
    requires s.Fits(cfg) && o < |cfg.options| && s.args != []
    ensures var r := ParseOption(cfg, s, o, parts); r.Some? ==> r.value.1.Named?
  {
  }

  /** Nobody goes by the one name that can be seen in a token. */
  lemma NoPairs(cfg: Settings, token: Token, dashes: nat, separator: byte, how: How, parts: Parts)
    requires dashes <= |token| && separator !in token[..dashes]
    requires IsPair(token, dashes, separator, parts.name, parts.value) && Nobody(cfg.options, how, parts.name)
    ensures NoPair(cfg, token, dashes, separator, how)
  {
    hide IsPair, Nobody;
    forall name, value | IsPair(token, dashes, separator, name, value) ensures Nobody(cfg.options, how, name) {
      NoOtherPair(token, dashes, separator, parts.name, parts.value, name, value);
    }
  }

  /** A token with one dash and no option of its letter: a long name behind one dash, or a leftover. */
  lemma ShortAlone(cfg: Settings, s: State, parts: Parts)
    requires s.Fits(cfg) && s.args != [] && SplitShort(Last(s.args)) == Some(parts)
    requires LooksShort(Last(s.args)) && !IsNegative(cfg, Last(s.args)) && parts.name == [Last(s.args)[1]]
    requires FirstMatch(cfg.options, 0, Short, parts.name) == |cfg.options| && Nobody(cfg.options, ByShort, parts.name)
    ensures var r, token := ParseArg(cfg, s, Short), Last(s.args);
      || (r.Some? && r.value.1 == Leftover(Short, token) && NamesNothing(cfg, token, Short))
      || exists o: nat, parts :: Names(cfg, token, parts, o) && o < |cfg.options| && r == ParseOption(cfg, s, o, parts)
  {
    hide ParseOption, FirstMatch, Recognize, SplitLong, SplitShort, IsPair, First, Nobody, IsNegative, NoPair;
    var token := Last(s.args);
    if cfg.nonStandard && |token| > 2 {
      NonStandardAlike(token);
      var long := SplitLong([MINUS] + token).value;
      NobodyMatches(cfg.options, Short, ByShort, long.name);
      var q := FirstMatch(cfg.options, 0, Short, long.name);
      if q < |cfg.options| {
        assert Names(cfg, token, long, q);
      } else {
        NoPairs(cfg, token, 1, '=' as int, ByShort, long);
      }
    }
  }

  // ---------------------------------------------------------------- how far an option goes

  lemma BoundsAlike(sp: Spec)
    ensures sp.MinNum() == Least(sp) && sp.MaxNum() == Most(sp)
    ensures sp.ItemsMin() == sp.typeMin * sp.expectedMin && sp.ItemsMax() == Times(sp.typeMax, sp.expectedMax)
    ensures sp.Spreads() <==> sp.allowExtra || sp.expectedMax >= 2
  {
    ProductAlike(sp.typeMax, sp.expectedMax);
    ProductAlike(sp.typeMax, sp.expectedMin);
    if sp.expectedMin > 0 {
      AtLeastOnce(sp.typeMin, sp.expectedMin);
    } else {
      assert sp.typeMin * sp.expectedMin == 0;
    }
    hide Product, Times;
  }

  lemma ProductAlike(a: nat, b: nat)
    ensures Product(a, b) == Times(a, b)
  {
  }

  lemma AtLeastOnce(a: nat, b: nat)
    requires b > 0
    ensures a * b >= a
  {
    assert a * b == a * (b - 1) + a;
  }

  lemma {:induction false} LackingSnoc(options: seq<Spec>, results: seq<seq<Token>>)
    requires |options| == |results| && options != []
    ensures Lacking(options, results)
      == Lacking(ButLast(options), ButLast(results)) + Lack(Last(options), |Last(results)|)
    decreases |options|
  {
    if |options| > 1 {
      LackingSnoc(options[1..], results[1..]);
      assert ButLast(options)[1..] == ButLast(options[1..]) && ButLast(results)[1..] == ButLast(results[1..]);
    } else {
      assert options[1..] == [] == ButLast(options) && results[1..] == [] == ButLast(results);
    }
  }

  lemma {:induction false} LackingAlike(options: seq<Spec>, results: seq<seq<Token>>)
    requires |options| == |results|
    ensures Remaining(options, results) == Lacking(options, results)
    decreases |options|
  {
    if options != [] {
      LackingSnoc(options, results);
      LackingAlike(ButLast(options), ButLast(results));
    }
  }

  /** One more token off the stack adds its texts to what was given before. */
  lemma GivenOneMore(sp: Spec, args: seq<Token>, k: nat)
    requires k < |args|
    ensures ButLast(args)[k..] + [Last(args)] == args[k..]
    ensures GivenTexts(sp, args[k..]) == sp.Texts(Last(args)) + GivenTexts(sp, ButLast(args)[k..])
  {
    hide Spec.Texts;
    assert args[k..] == ButLast(args)[k..] + [Last(args)];
    assert ButLast(args[k..]) == ButLast(args)[k..];
  }

  /** The number collected when k tokens are left, starting from p. */
  ghost function Count(sp: Spec, p: Progress, k: nat): nat
    requires k <= |p.state.args|
  {
    p.collected + |GivenTexts(sp, p.state.args[k..])|
  }

  lemma CountOneMore(cfg: Settings, o: nat, p: Progress, k: nat)
    requires p.state.Fits(cfg) && o < |cfg.options| && k < |p.state.args|
    ensures Count(cfg.options[o], p, k) == Count(cfg.options[o], TakeTop(cfg, o, p), k)
    ensures TakeTop(cfg, o, p).state.args == ButLast(p.state.args)
  {
    hide Spec.Texts, GivenTexts;
    GivenOneMore(cfg.options[o], p.state.args, k);
  }

  lemma CountNothing(sp: Spec, p: Progress)
    ensures Count(sp, p, |p.state.args|) == p.collected
  {
    assert p.state.args[|p.state.args|..] == [];
  }

  lemma {:induction false} GatherAlike(cfg: Settings, p: Progress, o: nat, least: nat)
    requires p.state.Fits(cfg) && o < |cfg.options|
    ensures var q := Gather(cfg, p, o, least);
      && |q.state.args| <= |p.state.args| && (q.collected >= least || q.state.args == [])
      && forall k :: |q.state.args| < k <= |p.state.args| ==> Count(cfg.options[o], p, k) < least
    decreases |p.state.args|
  {
    hide Count, GiveCounted;
    CountNothing(cfg.options[o], p);
    if least > p.collected && p.state.args != [] {
      var next := TakeTop(cfg, o, p);
      CountOneMore(cfg, o, p, 0);
      GatherAlike(cfg, next, o, least);
      var q := Gather(cfg, next, o, least);
      forall k | |q.state.args| < k <= |p.state.args| ensures Count(cfg.options[o], p, k) < least {
        if k < |p.state.args| {
          CountOneMore(cfg, o, p, k);
        }
      }
    }
  }

  /** The same test as the parser's, for the token on top of k. */
  ghost predicate MayGo(cfg: Settings, o: nat, p: Progress, k: nat, reserved: nat)
    requires o < |cfg.options| && k <= |p.state.args|
  {
    var sp := cfg.options[o];
    && k > reserved && Hungry(sp, Count(sp, p, k))
    && IsArgument(cfg, p.state.args[k - 1]) && (cfg.validateOptional ==> sp.accepts(p.state.args[k - 1]))
  }

  lemma TakesAlike(cfg: Settings, p: Progress, o: nat, reserved: nat)
    requires o < |cfg.options|
    ensures Takes(cfg, p, o, reserved) <==> MayGo(cfg, o, p, |p.state.args|, reserved)
  {
    hide Count, Most, Spec.MaxNum, IsArgument, Recognize;
    CountNothing(cfg.options[o], p);
    BoundsAlike(cfg.options[o]);
    if p.state.args != [] {
      ArgumentAlike(cfg, Last(p.state.args));
    }
  }

  lemma {:induction false} TakeOptionalAlike(cfg: Settings, p: Progress, o: nat, reserved: nat)
    requires p.state.Fits(cfg) && o < |cfg.options|
    ensures var q := TakeOptional(cfg, p, o, reserved);
      && |q.state.args| <= |p.state.args|
      && (forall k :: |q.state.args| < k <= |p.state.args| ==> MayGo(cfg, o, p, k, reserved))
      && !MayGo(cfg, o, p, |q.state.args|, reserved)
    decreases |p.state.args|
  {
    hide GiveCounted, Takes, MayGo;
    TakesAlike(cfg, p, o, reserved);
    if Takes(cfg, p, o, reserved) {
      NotEmptyTakes(cfg, p, o, reserved);
      var next := TakeTop(cfg, o, p);
      CountOneMore(cfg, o, p, 0);
      TakeOptionalAlike(cfg, next, o, reserved);
      var q := TakeOptional(cfg, next, o, reserved);
      forall k | |q.state.args| <= k < |p.state.args|
        ensures MayGo(cfg, o, p, k, reserved) <==> MayGo(cfg, o, next, k, reserved)
      {
        MayGoNext(cfg, o, p, k, reserved);
      }
    }
  }

  lemma NotEmptyTakes(cfg: Settings, p: Progress, o: nat, reserved: nat)
    requires o < |cfg.options| && Takes(cfg, p, o, reserved)
    ensures p.state.args != []
  {
  }

  lemma MayGoNext(cfg: Settings, o: nat, p: Progress, k: nat, reserved: nat)
    requires p.state.Fits(cfg) && o < |cfg.options| && k < |p.state.args|
    ensures k <= |TakeTop(cfg, o, p).state.args|
    ensures MayGo(cfg, o, p, k, reserved) <==> MayGo(cfg, o, TakeTop(cfg, o, p), k, reserved)
  {
    hide Count, Most, IsArgument;
    CountOneMore(cfg, o, p, k);
  }

  lemma CountLater(cfg: Settings, o: nat, p: Progress, q: Progress, k: nat)
    requires Gave(cfg, o, p, q) && k <= |q.state.args|
    ensures |q.state.args| <= |p.state.args| && Count(cfg.options[o], q, k) == Count(cfg.options[o], p, k)
    ensures k > 0 ==> q.state.args[k - 1] == p.state.args[k - 1]
  {
    hide GivenTexts;
    var g, args := |q.state.args|, p.state.args;
    assert q.state.args[k..] + args[g..] == args[k..];
    GivenConcat(cfg.options[o], q.state.args[k..], args[g..]);
  }

  ghost function SceneOf(s: State): Scene {
    Scene(s.args, s.results, s.positionalOnly, false)
  }

  /** What the token of an option brings, before anything else is taken. */
  lemma OwnAlike(cfg: Settings, s: State, o: nat, parts: Parts)
    requires s.Fits(cfg) && o < |cfg.options|
    ensures var r, sp := Own(cfg, Parted(cfg, s, o), o, parts), cfg.options[o];
      r.Some? ==>
        && r.value.state.args == s.args && r.value.collected == OwnCount(sp, parts)
        && r.value.state.results == s.results[o := s.results[o] + Parting(sp, s.results[o]) + OwnTexts(sp, parts)]
  {
    hide Own, Parted, Parting, OwnTexts, OwnCount;
    var r, sp, parted := Own(cfg, Parted(cfg, s, o), o, parts), cfg.options[o], Parted(cfg, s, o);
    PartedAdds(cfg, s, o);
    OwnAdds(cfg, parted, o, parts);
    OwnLeaves(cfg, s, o, parts);
    if r.Some? {
      BehindTwice(o, s.results, parted.results, r.value.state.results, Parting(sp, s.results[o]), OwnTexts(sp, parts));
      assert s.results[o] + Parting(sp, s.results[o]) + OwnTexts(sp, parts)
          == s.results[o] + (Parting(sp, s.results[o]) + OwnTexts(sp, parts));
    }
  }

  /** The option goes as far as it may. */
  lemma TakenGoes(cfg: Settings, s: State, o: nat, parts: Parts, own: Progress, got: Progress, all: Progress)
    requires s.Fits(cfg) && o < |cfg.options| && s.args != [] && own.state.Fits(cfg)
    requires own.state.args == ButLast(s.args) && own.collected == OwnCount(cfg.options[o], parts)
    requires own.state.results == s.results[o :=
      s.results[o] + Parting(cfg.options[o], s.results[o]) + OwnTexts(cfg.options[o], parts)]
    requires got == Gather(cfg, own, o, cfg.options[o].MinNum()) && cfg.options[o].MinNum() <= got.collected
    requires all == Taken(cfg, got, o)
    ensures |all.state.args| <= |got.state.args| < |s.args|
    ensures Goes(cfg, SceneOf(s), o, parts, |got.state.args|, |all.state.args|,
                 WantsMore(cfg, got, o) && EndsList(cfg, all.state.args))
  {
    hide Gather, Taken, Count, MayGo, Parting, OwnTexts, OwnCount, GivenTexts, Gave, Lacking, Most, Spec.MaxNum,
      Spec.MinNum, Recognize, IsArgument, Remaining;
    var sp, args, g, m := cfg.options[o], ButLast(s.args), |got.state.args|, |all.state.args|;
    BoundsAlike(sp);
    GatherAlike(cfg, own, o, sp.MinNum());
    GatherGives(cfg, own, o, sp.MinNum());
    TakenGives(cfg, got, o);
    GaveBehind(cfg, o, own, got);
    GaveBehind(cfg, o, got, all);
    GaveArgs(cfg, o, own, got);
    GaveArgs(cfg, o, got, all);
    var had := s.results[o] + Parting(sp, s.results[o]) + OwnTexts(sp, parts);
    assert got.state.results == s.results[o := had + GivenTexts(sp, args[g..])];
    LackingAlike(cfg.options, got.state.results);
    var reserved := Lacking(cfg.options, got.state.results);
    TakenStops(cfg, got, o, reserved);
    forall k | 0 <= k <= |args| ensures Collected(sp, parts, args, k) == Count(sp, own, k) {
      CollectedCounts(sp, parts, own, k);
    }
    forall k | 0 <= k <= g ensures MayTake(cfg, sp, parts, args, k, reserved) <==> MayGo(cfg, o, got, k, reserved) {
      CountLater(cfg, o, own, got, k);
      MayAlike(cfg, o, parts, own, got, k, reserved);
    }
    if m > 0 {
      CountLater(cfg, o, own, got, m);
      ArgumentAlike(cfg, args[m - 1]);
    }
    CountLater(cfg, o, own, got, g);
    CountNothing(sp, got);
  }

  lemma GaveArgs(cfg: Settings, o: nat, p: Progress, q: Progress)
    requires Gave(cfg, o, p, q)
    ensures |q.state.args| <= |p.state.args| && q.state.args == p.state.args[..|q.state.args|]
  {
  }

  lemma CollectedCounts(sp: Spec, parts: Parts, own: Progress, k: nat)
    requires k <= |own.state.args| && own.collected == OwnCount(sp, parts)
    ensures Collected(sp, parts, own.state.args, k) == Count(sp, own, k)
  {
  }

  lemma MayAlike(cfg: Settings, o: nat, parts: Parts, own: Progress, got: Progress, k: nat, reserved: nat)
    requires o < |cfg.options| && k <= |got.state.args| <= |own.state.args|
    requires own.collected == OwnCount(cfg.options[o], parts)
    requires Count(cfg.options[o], got, k) == Count(cfg.options[o], own, k)
    requires k > 0 ==> got.state.args[k - 1] == own.state.args[k - 1]
    ensures MayTake(cfg, cfg.options[o], parts, own.state.args, k, reserved) <==> MayGo(cfg, o, got, k, reserved)
  {
    CollectedCounts(cfg.options[o], parts, own, k);
    hide Count, Collected;
  }

  /** Beyond what is required, an option takes while it may and stops where it may not. */
  lemma TakenStops(cfg: Settings, p: Progress, o: nat, reserved: nat)
    requires p.state.Fits(cfg) && o < |cfg.options| && reserved == Remaining(cfg.options, p.state.results)
    ensures var q := Taken(cfg, p, o);
      && |q.state.args| <= |p.state.args|
      && (forall k :: |q.state.args| < k <= |p.state.args| ==> MayGo(cfg, o, p, k, reserved))
      && !MayGo(cfg, o, p, |q.state.args|, reserved)
  {
    hide TakeOptional, Count, Most, Spec.MaxNum, IsArgument;
    BoundsAlike(cfg.options[o]);
    CountNothing(cfg.options[o], p);
    if WantsMore(cfg, p, o) {
      TakeOptionalAlike(cfg, p, o, reserved);
    }
  }

  // ---------------------------------------------------------------- one step of the loop

  /** The use of an option, in the scene in which it is found. */
  lemma OptionHappens(cfg: Settings, s: State, o: nat, parts: Parts)
    requires s.Fits(cfg) && o < |cfg.options| && s.args != [] && !s.positionalOnly
    requires Names(cfg, Last(s.args), parts, o) && (parts.value != [] ==> parts.rest == [])
    ensures var r := ParseOption(cfg, s, o, parts);
      r.Some? ==> var (t, use) := r.value;
        Happens(cfg, SceneOf(s), use) && Next(cfg, SceneOf(s), use) == SceneOf(t)
  {
    hide Own, Parted, Gather, Taken, Ending, WantsMore, EndsList, Goes, Names, Adds, Most, Spec.MinNum, Spec.MaxNum,
      Gave, Parting, OwnTexts, OwnCount, Behind, Accepted, GivenTexts;
    var r, sp := ParseOption(cfg, s, o, parts), cfg.options[o];
    if r.Some? {
      var (t, use) := r.value;
      var popped := s.(args := ButLast(s.args));
      BoundsAlike(sp);
      OwnAlike(cfg, popped, o, parts);
      var own := Own(cfg, Parted(cfg, popped, o), o, parts).value;
      var got := Gather(cfg, own, o, sp.MinNum());
      var all := Taken(cfg, got, o);
      TakenGoes(cfg, s, o, parts, own, got, all);
      OptionArgs(cfg, s, o, parts, own, got, all);
      OptionAccepted(cfg, s, o, parts, own, got, all);
      OptionResults(cfg, s, o, parts);
      BehindIs(cfg, s, o, t, Adds(sp, use, s.results[o]));
      OptionKeeps(cfg, s, o, parts);
    }
  }

  lemma BehindIs(cfg: Settings, s: State, o: nat, t: State, more: seq<Token>)
    requires s.Fits(cfg) && Behind(o, s.results, t.results, more)
    ensures t.results == s.results[o := s.results[o] + more]
  {
  }

  lemma {:induction false} GatherKeeps(cfg: Settings, p: Progress, o: nat, least: nat)
    requires p.state.Fits(cfg) && o < |cfg.options|
    ensures Gather(cfg, p, o, least).state.positionalOnly == p.state.positionalOnly
    decreases |p.state.args|
  {
    hide Spec.Texts;
    if least > p.collected && p.state.args != [] {
      GatherKeeps(cfg, TakeTop(cfg, o, p), o, least);
    }
  }

  lemma {:induction false} TakeOptionalKeeps(cfg: Settings, p: Progress, o: nat, reserved: nat)
    requires p.state.Fits(cfg) && o < |cfg.options|
    ensures TakeOptional(cfg, p, o, reserved).state.positionalOnly == p.state.positionalOnly
    decreases |p.state.args|
  {
    hide Spec.Texts, Recognize;
    if Takes(cfg, p, o, reserved) {
      TakeOptionalKeeps(cfg, TakeTop(cfg, o, p), o, reserved);
    }
  }

  /** No option changes whether options are looked for. */
  lemma OptionKeeps(cfg: Settings, s: State, o: nat, parts: Parts)
    requires s.Fits(cfg) && o < |cfg.options| && s.args != []
    ensures var r := ParseOption(cfg, s, o, parts); r.Some? ==> r.value.0.positionalOnly == s.positionalOnly
  {
    hide Gather, TakeOptional, Spec.Texts, Spec.MinNum, Spec.MaxNum, Recognize, Remaining;
    var r, sp, popped := ParseOption(cfg, s, o, parts), cfg.options[o], s.(args := ButLast(s.args));
    if r.Some? {
      var own := Own(cfg, Parted(cfg, popped, o), o, parts).value;
      var got := Gather(cfg, own, o, sp.MinNum());
      GatherKeeps(cfg, own, o, sp.MinNum());
      TakeOptionalKeeps(cfg, got, o, Remaining(cfg.options, got.state.results));
    }
  }

  /** What the use says of the stack, and the stack behind it. */
  lemma OptionArgs(cfg: Settings, s: State, o: nat, parts: Parts, own: Progress, got: Progress, all: Progress)
    requires s.Fits(cfg) && o < |cfg.options| && s.args != [] && (parts.value != [] ==> parts.rest == [])
    requires Own(cfg, Parted(cfg, s.(args := ButLast(s.args)), o), o, parts) == Some(own)
    requires got == Gather(cfg, own, o, cfg.options[o].MinNum()) && all == Taken(cfg, got, o)
    ensures var r := ParseOption(cfg, s, o, parts); var args, m := ButLast(s.args), |all.state.args|;
      r.Some? ==> var (t, use) := r.value;
        var rest := if Most(cfg.options[o]) == 0 then parts.rest else [];
        var closed := WantsMore(cfg, got, o) && EndsList(cfg, all.state.args);
        && m <= |args| && all.state.args == args[..m] && (closed ==> m > 0)
        && use == Named(o, Last(s.args), parts, args[m..], closed, rest)
        && t.args == (if closed then ButLast(args[..m]) else args[..m]) + if rest == [] then [] else [[MINUS] + rest]
  {
    hide Own, Parted, Gather, Taken, WantsMore, EndsList, Spec.MinNum, Spec.MaxNum, Most;
    BoundsAlike(cfg.options[o]);
    OwnLeaves(cfg, s.(args := ButLast(s.args)), o, parts);
    GatherLeaves(cfg, own, o, cfg.options[o].MinNum());
    TakenLeaves(cfg, got, o);
    EndingArgs(cfg, got, o, parts);
    MarkEnds(cfg, all.state.args);
    hide Ending;
    var closed := WantsMore(cfg, got, o) && EndsList(cfg, all.state.args);
    var base := if closed then ButLast(all.state.args) else all.state.args;
    assert base + [] == base;
    var args, m := ButLast(s.args), |all.state.args|;
    assert args[..|got.state.args|][..m] == args[..m];
  }

  // ---------------------------------------------------------------- positional arguments and leftovers

  lemma {:induction false} RequiredIsFirst(cfg: Settings, s: State, token: Token, i: nat)
    requires s.Fits(cfg) && i <= |cfg.options|
    ensures var o := FirstRequired(cfg, s, token, i);
      && (o < |cfg.options| ==> Wants(cfg, cfg.options[o], |s.results[o]|, token, true))
      && forall k :: i <= k < o ==> !Wants(cfg, cfg.options[k], |s.results[k]|, token, true)
    decreases |cfg.options| - i
  {
    if i < |cfg.options| && !StillRequired(cfg, s, token, i) {
      RequiredIsFirst(cfg, s, token, i + 1);
    }
  }

  lemma {:induction false} RoomIsFirst(cfg: Settings, s: State, token: Token, i: nat)
    requires s.Fits(cfg) && i <= |cfg.options|
    ensures var o := FirstRoom(cfg, s, token, i);
      && (o < |cfg.options| ==> Wants(cfg, cfg.options[o], |s.results[o]|, token, false))
      && forall k :: i <= k < o ==> !Wants(cfg, cfg.options[k], |s.results[k]|, token, false)
    decreases |cfg.options| - i
  {
    hide Product, Times;
    if i < |cfg.options| {
      ProductAlike(cfg.options[i].typeMax, cfg.options[i].expectedMax);
      if !HasRoom(cfg, s, token, i) {
        RoomIsFirst(cfg, s, token, i + 1);
      }
    }
  }

  /** The option that gets a positional argument, if any does. */
  lemma ReceivesAlike(cfg: Settings, s: State)
    requires s.Fits(cfg) && s.args != []
    ensures var o := PositionalFor(cfg, s);
      if o < |cfg.options| then Receives(cfg, SceneOf(s), Last(s.args), o)
      else forall k :: !Receives(cfg, SceneOf(s), Last(s.args), k)
  {
    hide FirstRequired, FirstRoom, Wants, Remaining, Lacking;
    var token := Last(s.args);
    LackingAlike(cfg.options, s.results);
    RequiredIsFirst(cfg, s, token, 0);
    RoomIsFirst(cfg, s, token, 0);
    var q := FirstRequired(cfg, s, token, 0);
    assert q < |cfg.options| ==> FirstOf(cfg, SceneOf(s), token, true, q);
    assert q == |cfg.options| ==> forall k :: !FirstOf(cfg, SceneOf(s), token, true, k);
  }

  lemma PositionalAdds(cfg: Settings, s: State, o: nat, token: Token)
    requires s.Fits(cfg) && o < |cfg.options|
    ensures Give(cfg, Parted(cfg, s, o), o, token).results ==
      s.results[o := s.results[o] + Adds(cfg.options[o], Positional(o, token), s.results[o])]
  {
    hide Spec.Texts, Parted, Parting;
    PartedAdds(cfg, s, o);
    GiveAdds(cfg, Parted(cfg, s, o), o, token);
    BehindTwice(o, s.results, Parted(cfg, s, o).results, Give(cfg, Parted(cfg, s, o), o, token).results,
                Parting(cfg.options[o], s.results[o]), cfg.options[o].Texts(token));
  }

  /** A scene in which everything is left over. */
  lemma {:induction false} Abandoned(cfg: Settings, s: State, scene: Scene)
    requires scene.Fits(cfg) && scene.abandoned && scene.args == s.args
    ensures Story(cfg, scene, AllLeftover(s).1)
    decreases |s.args|
  {
    hide Receives, IsArgument;
    if s.args != [] {
      var use := Leftover(Unclassified, Last(s.args));
      var rest := s.(args := ButLast(s.args), missing := s.missing + [(Unclassified, Last(s.args))]);
      Abandoned(cfg, rest, Next(cfg, scene, use));
      StoryOf(cfg, scene, use, AllLeftover(rest).1);
    }
  }

  lemma StoryOf(cfg: Settings, scene: Scene, use: Use, rest: seq<Use>)
    requires scene.Fits(cfg)
    ensures Story(cfg, scene, [use] + rest) <==> Happens(cfg, scene, use) && Story(cfg, Next(cfg, scene, use), rest)
  {
    hide Happens;
    var uses := [use] + rest;
    assert uses[0] == use && uses[1..] == rest;
  }

  /** What one step of the loop tells: one use and the scene behind it, or a story to the end. */
  ghost predicate StepTells(cfg: Settings, s: State, t: State, uses: seq<Use>)
    requires s.Fits(cfg)
  {
    || (|uses| == 1 && Happens(cfg, SceneOf(s), uses[0]) && Next(cfg, SceneOf(s), uses[0]) == SceneOf(t))
    || (t.args == [] && Story(cfg, SceneOf(s), uses))
  }

  lemma PositionalTells(cfg: Settings, s: State)
    requires s.Fits(cfg) && s.args != [] && (s.positionalOnly || IsArgument(cfg, Last(s.args)))
    ensures var r := ParsePositional(cfg, s);
      r.Some? ==> var (t, uses) := r.value;
        StepTells(cfg, s, t.(positionalOnly := t.positionalOnly || cfg.positionalsAtEnd), uses)
  {
    hide PositionalFor, Receives, IsArgument, Adds, Give, Parted, Story;
    var r, token, o := ParsePositional(cfg, s), Last(s.args), PositionalFor(cfg, s);
    ReceivesAlike(cfg, s);
    if o < |cfg.options| {
      PositionalAdds(cfg, s, o, token);
      PositionalKeeps(cfg, s, o, token);
    } else if r.Some? {
      var use := Leftover(Unclassified, token);
      var one := s.(args := ButLast(s.args), missing := s.missing + [(Unclassified, token)]);
      assert Happens(cfg, SceneOf(s), use);
      if cfg.prefixCommand {
        Abandoned(cfg, one, Next(cfg, SceneOf(s), use));
        StoryOf(cfg, SceneOf(s), use, AllLeftover(one).1);
        AllGone(one);
      } else {
        assert [use] + [] == [use];
      }
    }
  }

  lemma PositionalKeeps(cfg: Settings, s: State, o: nat, token: Token)
    requires s.Fits(cfg) && o < |cfg.options|
    ensures Give(cfg, Parted(cfg, s, o), o, token).positionalOnly == s.positionalOnly
  {
  }

  lemma {:induction false} AllGone(s: State)
    ensures AllLeftover(s).0.args == []
    decreases |s.args|
  {
    if s.args != [] {
      AllGone(s.(args := ButLast(s.args), missing := s.missing + [(Unclassified, Last(s.args))]));
    }
  }

  /** A token that looks like an option. */
  lemma ArgTells(cfg: Settings, s: State, kind: Classifier)
    requires s.Fits(cfg) && s.args != [] && !s.positionalOnly
    requires kind == Recognize(cfg, Last(s.args)) && kind in [Long, Short, WindowsStyle]
    ensures var r := ParseArg(cfg, s, kind); r.Some? ==> StepTells(cfg, s, r.value.0, [r.value.1])
  {
    hide ParseOption, Recognize, Names, NamesNothing, Happens, Story;
    NamesAlike(cfg, s, kind);
    var r, token := ParseArg(cfg, s, kind), Last(s.args);
    if r.Some? {
      if r.value.1 == Leftover(kind, token) && NamesNothing(cfg, token, kind) {
        LeftoverHappens(cfg, s, kind);
      } else {
        var o: nat, parts :|
          Names(cfg, token, parts, o) && o < |cfg.options| && r == ParseOption(cfg, s, o, parts);
        NamedParts(cfg, token, parts, o);
        OptionHappens(cfg, s, o, parts);
      }
    }
  }

  lemma NamedParts(cfg: Settings, token: Token, parts: Parts, o: nat)
    requires Names(cfg, token, parts, o)
    ensures o < |cfg.options| && (parts.value != [] ==> parts.rest == [])
  {
  }

  lemma LeftoverHappens(cfg: Settings, s: State, kind: Classifier)
    requires s.Fits(cfg) && s.args != [] && !s.positionalOnly && kind in [Long, Short, WindowsStyle]
    requires NamesNothing(cfg, Last(s.args), kind) && ParseArg(cfg, s, kind).Some?
    requires ParseArg(cfg, s, kind).value.1 == Leftover(kind, Last(s.args))
    ensures Happens(cfg, SceneOf(s), Leftover(kind, Last(s.args)))
    ensures Next(cfg, SceneOf(s), Leftover(kind, Last(s.args))) == SceneOf(ParseArg(cfg, s, kind).value.0)
  {
    hide ParseOption, NamesNothing, FirstMatch, SplitLong, SplitShort, SplitWindowsStyle;
    OptionsAreNamed(cfg, s);
  }

  lemma OptionsAreNamed(cfg: Settings, s: State)
    requires s.Fits(cfg) && s.args != []
    ensures forall o: nat, parts ::
      o < |cfg.options| && ParseOption(cfg, s, o, parts).Some? ==> ParseOption(cfg, s, o, parts).value.1.Named?
  {
    forall o: nat, parts | o < |cfg.options| && ParseOption(cfg, s, o, parts).Some?
      ensures ParseOption(cfg, s, o, parts).value.1.Named?
    {
      OptionNamed(cfg, s, o, parts);
    }
  }

  lemma SingleTells(cfg: Settings, s: State)
    requires s.Fits(cfg) && s.args != []
    ensures var r := ParseSingle(cfg, s); r.Some? ==> StepTells(cfg, s, r.value.0, r.value.1)
  {
    hide ParseArg, ParsePositional, Recognize, StepTells, IsArgument;
    var token := Last(s.args);
    var kind := if s.positionalOnly then Unclassified else Recognize(cfg, token);
    ArgumentAlike(cfg, token);
    if kind == PositionalMark {
      MarkTells(cfg, s);
    } else if kind == Unclassified {
      PositionalTells(cfg, s);
    } else {
      ArgTells(cfg, s, kind);
    }
  }

  lemma MarkTells(cfg: Settings, s: State)
    requires s.Fits(cfg) && s.args != [] && !s.positionalOnly && Last(s.args) == ['-' as int, '-' as int]
    ensures StepTells(cfg, s, s.(args := ButLast(s.args), positionalOnly := true,
                                 missing := s.missing + [(PositionalMark, MARK)]),
                       [Leftover(PositionalMark, Last(s.args))])
  {
  }

  /** Every run without an exception is a story of its command line. */
  lemma {:induction false} ParseTells(cfg: Settings, s: State)
    requires s.Fits(cfg)
    ensures Parse(cfg, s).Some? ==> Story(cfg, SceneOf(s), Parse(cfg, s).value.1)
    decreases Pending(s.args)
  {
    hide ParseSingle, Pending, Parse, Happens, Next;
    ParseStep(cfg, s);
    if s.args != [] && Parse(cfg, s).Some? {
      SingleShrinks(cfg, s);
      SingleTells(cfg, s);
      var (t, first) := ParseSingle(cfg, s).value;
      ParseTells(cfg, t);
      var more := Parse(cfg, t).value.1;
      if |first| == 1 && Happens(cfg, SceneOf(s), first[0]) && Next(cfg, SceneOf(s), first[0]) == SceneOf(t) {
        StoryOf(cfg, SceneOf(s), first[0], more);
        assert first == [first[0]];
      } else {
        ParseStep(cfg, t);
        assert first + [] == first;
      }
    }
  }

  /** The two tests an option passes or fails behind its arguments. */
  lemma EndingAccepts(cfg: Settings, got: Progress, o: nat, parts: Parts)
    requires got.state.Fits(cfg) && o < |cfg.options| && got.collected <= Taken(cfg, got, o).collected
    ensures var sp, collected := cfg.options[o], Taken(cfg, got, o).collected;
      Ending(cfg, got, o, parts).Some? <==>
        && (Least(sp) == 0 && Most(sp) > 0 && collected == 0 ==> sp.flagValue(parts.name, []).Some?)
        && (Least(sp) > 0 && sp.typeMax > 0 && collected % sp.typeMax != 0 ==> sp.typeMax != sp.typeMin)
  {
    hide Taken, RestLeft, EndsList, Spec.Texts, Spec.MaxNum, Spec.MinNum, Most, Least;
    BoundsAlike(cfg.options[o]);
  }

  lemma OwnAccepts(cfg: Settings, s: State, o: nat, parts: Parts)
    requires s.Fits(cfg) && o < |cfg.options|
    ensures Own(cfg, s, o, parts).Some? <==>
      (Most(cfg.options[o]) == 0 ==> cfg.options[o].flagValue(parts.name, parts.value).Some?)
  {
    hide Spec.Texts, Spec.MaxNum, Most;
    BoundsAlike(cfg.options[o]);
  }

  lemma OptionAccepted(cfg: Settings, s: State, o: nat, parts: Parts, own: Progress, got: Progress, all: Progress)
    requires s.Fits(cfg) && o < |cfg.options| && s.args != []
    requires Own(cfg, Parted(cfg, s.(args := ButLast(s.args)), o), o, parts) == Some(own)
    requires got == Gather(cfg, own, o, cfg.options[o].MinNum()) && all == Taken(cfg, got, o)
    ensures |all.state.args| <= |ButLast(s.args)|
    ensures var taken := ButLast(s.args)[|all.state.args|..];
      Ending(cfg, got, o, parts).Some? <==>
        Accepted(cfg.options[o], parts, OwnCount(cfg.options[o], parts) + |GivenTexts(cfg.options[o], taken)|)
  {
    hide Own, Parted, Gather, Taken, Ending, Gave, Spec.MinNum, Most, Least, OwnCount, GivenTexts;
    var popped, sp := s.(args := ButLast(s.args)), cfg.options[o];
    OwnAlike(cfg, popped, o, parts);
    OwnAccepts(cfg, Parted(cfg, popped, o), o, parts);
    GatherGives(cfg, own, o, sp.MinNum());
    TakenGives(cfg, got, o);
    GaveTwice(cfg, o, own, got, all);
    GaveBehind(cfg, o, own, all);
    GaveMore(cfg, o, got, all);
    EndingAccepts(cfg, got, o, parts);
  }

  // ---------------------------------------------------------------- there is no other story

  lemma NamesUnique(cfg: Settings, token: Token, p: Parts, o: nat, q: Parts, u: nat)
    requires Names(cfg, token, p, o) && Names(cfg, token, q, u)
    ensures p == q && o == u
  {
    hide IsNegative, First, Nobody, IsPair;
    if LooksLong(token) {
      NoOtherPair(token, 2, '=' as int, p.name, p.value, q.name, q.value);
      FirstUnique(cfg.options, ByLong, p.name, o, u);
    } else if LooksShort(token) {
      ShortUnique(cfg, token, p, o, q, u);
    } else {
      NoOtherPair(token, 1, ':' as int, p.name, p.value, q.name, q.value);
      FirstUnique(cfg.options, ByEither, p.name, o, u);
    }
  }

  lemma FirstUnique(options: seq<Spec>, how: How, name: Token, o: nat, u: nat)
    requires First(options, how, name, o) && First(options, how, name, u)
    ensures o == u
  {
  }

  lemma FirstIsSomebody(options: seq<Spec>, how: How, name: Token, o: nat)
    requires First(options, how, name, o)
    ensures o < |options| && !Nobody(options, how, name)
  {
  }

  lemma ShortUnique(cfg: Settings, token: Token, p: Parts, o: nat, q: Parts, u: nat)
    requires Names(cfg, token, p, o) && Names(cfg, token, q, u) && LooksShort(token)
    ensures p == q && o == u
  {
    hide IsNegative, First, Nobody, IsPair, LooksLong, LooksWindows;
    if Nobody(cfg.options, ByShort, [token[1]]) {
      ShortNotLetter(cfg, token, p, o);
      ShortNotLetter(cfg, token, q, u);
      NoOtherPair(token, 1, '=' as int, p.name, p.value, q.name, q.value);
      FirstUnique(cfg.options, ByShort, p.name, o, u);
    } else {
      ShortLetter(cfg, token, p, o);
      ShortLetter(cfg, token, q, u);
      FirstUnique(cfg.options, ByShort, p.name, o, u);
    }
  }

  lemma ShortLetter(cfg: Settings, token: Token, p: Parts, o: nat)
    requires Names(cfg, token, p, o) && LooksShort(token) && !Nobody(cfg.options, ByShort, [token[1]])
    ensures p == Parts([token[1]], [], token[2..]) && First(cfg.options, ByShort, p.name, o)
  {
    hide IsNegative, First, Nobody, IsPair;
    assert |p.name| == 1 ==> p.name == [p.name[0]];
    assert token == ['-' as int] + p.name + p.rest && |p.name| == 1 ==> token[1] == p.name[0] && token[2..] == p.rest;
  }

  lemma ShortNotLetter(cfg: Settings, token: Token, p: Parts, o: nat)
    requires Names(cfg, token, p, o) && LooksShort(token) && Nobody(cfg.options, ByShort, [token[1]])
    ensures p.rest == [] && IsPair(token, 1, '=' as int, p.name, p.value) && First(cfg.options, ByShort, p.name, o)
  {
    hide IsNegative, First, IsPair, Nobody;
    if |p.name| == 1 && token == ['-' as int] + p.name + p.rest && First(cfg.options, ByShort, p.name, o) {
      assert p.name == [token[1]];
      FirstIsSomebody(cfg.options, ByShort, p.name, o);
    }
  }

  /** A token that names an option is no argument, and does not name nothing. */
  lemma NamesExcludes(cfg: Settings, token: Token, p: Parts, o: nat)
    requires Names(cfg, token, p, o)
    ensures !IsArgument(cfg, token) && token != ['-' as int, '-' as int]
    ensures forall kind :: !NamesNothing(cfg, token, kind)
  {
    hide First, IsPair;
    if LooksLong(token) {
      FirstIsSomebody(cfg.options, ByLong, p.name, o);
    } else if LooksShort(token) {
      ShortExcludes(cfg, token, p, o);
    } else {
      FirstIsSomebody(cfg.options, ByEither, p.name, o);
    }
  }

  lemma ShortExcludes(cfg: Settings, token: Token, p: Parts, o: nat)
    requires Names(cfg, token, p, o) && LooksShort(token)
    ensures !IsNegative(cfg, token) && !NamesNothing(cfg, token, Short)
  {
    hide First, IsPair, Nobody;
    if Nobody(cfg.options, ByShort, [token[1]]) {
      ShortNotLetter(cfg, token, p, o);
      FirstIsSomebody(cfg.options, ByShort, p.name, o);
      assert !(|p.name| == 1 && p.name == [token[1]]);
    }
  }

  lemma GoesUnique(cfg: Settings, scene: Scene, o: nat, parts: Parts, g: nat, m: nat, c: bool, h: nat, n: nat, d: bool)
    requires scene.Fits(cfg) && o < |cfg.options| && m <= g < |scene.args| && n <= h < |scene.args|
    requires Goes(cfg, scene, o, parts, g, m, c) && Goes(cfg, scene, o, parts, h, n, d)
    ensures g == h && m == n && c == d
  {
    hide Collected, MayTake, Parting, OwnTexts, GivenTexts, Lacking, Least, Most, Hungry;
  }

  lemma ReceivesUnique(cfg: Settings, scene: Scene, token: Token, o: nat, u: nat)
    requires scene.Fits(cfg) && Receives(cfg, scene, token, o) && Receives(cfg, scene, token, u)
    ensures o == u
  {
    hide Wants, Lacking;
  }

  /** At most one thing can happen in a scene. */
  lemma HappensUnique(cfg: Settings, scene: Scene, a: Use, b: Use)
    requires scene.Fits(cfg) && Happens(cfg, scene, a) && Happens(cfg, scene, b)
    ensures a == b
  {
    hide Names, NamesNothing, IsArgument, Receives, Goes, Accepted;
    if a.Named? {
      NamedUnique(cfg, scene, a, b);
    } else if b.Named? {
      NamedUnique(cfg, scene, b, a);
    } else if a.Positional? && b.Positional? {
      ReceivesUnique(cfg, scene, a.token, a.option, b.option);
    } else {
      KindsExclude(cfg, a.token);
    }
  }

  lemma KindsExclude(cfg: Settings, token: Token)
    ensures IsArgument(cfg, token) ==>
      token != ['-' as int, '-' as int] && forall kind :: !NamesNothing(cfg, token, kind)
    ensures token == ['-' as int, '-' as int] ==> forall kind :: !NamesNothing(cfg, token, kind)
    ensures forall kind, other :: NamesNothing(cfg, token, kind) && NamesNothing(cfg, token, other) ==> kind == other
  {
    hide Nobody, NoPair;
  }

  /** How far an option goes that is used. */
  lemma UsesGoes(cfg: Settings, scene: Scene, use: Use) returns (g: nat, m: nat)
    requires scene.Fits(cfg) && scene.args != [] && use.Named? && use.option < |cfg.options| && Uses(cfg, scene, use)
    ensures m <= g < |scene.args| && m == |scene.args| - 1 - |use.taken|
    ensures Goes(cfg, scene, use.option, use.parts, g, m, use.closed)
  {
    hide GoesTo, Goes, Accepted, GivenTexts, OwnCount, Most;
    m := |scene.args| - 1 - |use.taken|;
    g := GoesFar(cfg, scene, use.option, use.parts, m, use.closed);
  }

  lemma GoesFar(cfg: Settings, scene: Scene, o: nat, parts: Parts, m: nat, closed: bool) returns (g: nat)
    requires scene.Fits(cfg) && o < |cfg.options| && m < |scene.args| && GoesTo(cfg, scene, o, parts, m, closed)
    ensures m <= g < |scene.args| && Goes(cfg, scene, o, parts, g, m, closed)
  {
    hide Goes;
    g :| m <= g < |scene.args| && Goes(cfg, scene, o, parts, g, m, closed);
  }

  lemma NamedUses(cfg: Settings, scene: Scene, use: Use)
    requires scene.Fits(cfg) && use.Named? && Happens(cfg, scene, use)
    ensures use.option < |cfg.options| && scene.args != [] && use.token == Last(scene.args)
    ensures Names(cfg, use.token, use.parts, use.option) && Uses(cfg, scene, use)
  {
    hide Names, Uses, Receives, NamesNothing, IsArgument;
    NamedParts(cfg, use.token, use.parts, use.option);
  }

  lemma NamedAlone(cfg: Settings, scene: Scene, a: Use, b: Use)
    requires scene.Fits(cfg) && Happens(cfg, scene, a) && Happens(cfg, scene, b) && a.Named?
    ensures b.Named? && a.token == b.token
  {
    hide Names, NamesNothing, IsArgument, Receives, Uses;
    NamesExcludes(cfg, a.token, a.parts, a.option);
  }

  lemma NamedUnique(cfg: Settings, scene: Scene, a: Use, b: Use)
    requires scene.Fits(cfg) && Happens(cfg, scene, a) && Happens(cfg, scene, b) && a.Named?
    ensures a == b
  {
    hide Happens, Names, Goes, Accepted, GivenTexts, OwnCount, Most;
    NamedAlone(cfg, scene, a, b);
    NamedUses(cfg, scene, a);
    NamedUses(cfg, scene, b);
    var g, m := UsesGoes(cfg, scene, a);
    var h, n := UsesGoes(cfg, scene, b);
    NamesUnique(cfg, a.token, a.parts, a.option, b.parts, b.option);
    GoesUnique(cfg, scene, a.option, a.parts, g, m, a.closed, h, n, b.closed);
  }

  lemma {:induction false} StoryUnique(cfg: Settings, scene: Scene, u: seq<Use>, v: seq<Use>)
    requires scene.Fits(cfg) && Story(cfg, scene, u) && Story(cfg, scene, v)
    ensures u == v
    decreases |u|
  {
    hide Happens, Next;
    if scene.args == [] {
      NothingHappens(cfg, scene);
    } else {
      HappensUnique(cfg, scene, u[0], v[0]);
      StoryUnique(cfg, Next(cfg, scene, u[0]), u[1..], v[1..]);
      assert u == [u[0]] + u[1..] && v == [v[0]] + v[1..];
    }
  }

  lemma NothingHappens(cfg: Settings, scene: Scene)
    requires scene.Fits(cfg) && scene.args == []
    ensures forall use :: !Happens(cfg, scene, use)
  {
  }

  // ---------------------------------------------------------------- and the parser misses none

  /** An option that may be used as the story says is not refused. */
  lemma OptionComplete(cfg: Settings, s: State, use: Use)
    requires s.Fits(cfg) && use.Named? && Happens(cfg, SceneOf(s), use)
    ensures use.option < |cfg.options| && s.args != [] && ParseOption(cfg, s, use.option, use.parts).Some?
  {
    hide Happens, Own, Parted, Gather, Taken, Ending, WantsMore, EndsList, Goes, Most, Spec.MinNum, Spec.MaxNum,
      Gave, Parting, OwnTexts, OwnCount, Accepted, GivenTexts;
    NamedUses(cfg, SceneOf(s), use);
    var g, m := UsesGoes(cfg, SceneOf(s), use);
    var o, parts, sp, popped := use.option, use.parts, cfg.options[use.option], s.(args := ButLast(s.args));
    AcceptedOwn(cfg, popped, o, parts, OwnCount(sp, parts) + |GivenTexts(sp, use.taken)|);
    OwnAlike(cfg, popped, o, parts);
    var own := Own(cfg, Parted(cfg, popped, o), o, parts).value;
    var got := Gather(cfg, own, o, sp.MinNum());
    GathersEnough(cfg, s, o, parts, own, g, m, use.closed);
    EndingComplete(cfg, s, use, own, got, g, m);
  }

  lemma EndingComplete(cfg: Settings, s: State, use: Use, own: Progress, got: Progress, g: nat, m: nat)
    requires s.Fits(cfg) && use.Named? && use.option < |cfg.options| && s.args != [] && own.state.Fits(cfg)
    requires Own(cfg, Parted(cfg, s.(args := ButLast(s.args)), use.option), use.option, use.parts) == Some(own)
    requires got == Gather(cfg, own, use.option, cfg.options[use.option].MinNum())
    requires got.collected >= cfg.options[use.option].MinNum()
    requires m <= g < |s.args| && use.taken == ButLast(s.args)[m..]
    requires Goes(cfg, SceneOf(s), use.option, use.parts, g, m, use.closed)
    requires var sp := cfg.options[use.option];
      Accepted(sp, use.parts, OwnCount(sp, use.parts) + |GivenTexts(sp, use.taken)|)
    ensures Ending(cfg, got, use.option, use.parts).Some?
  {
    hide Own, Parted, Gather, Taken, Ending, WantsMore, EndsList, Goes, Most, Spec.MinNum, Spec.MaxNum,
      Parting, OwnTexts, OwnCount, Accepted, GivenTexts;
    var o, parts := use.option, use.parts;
    var all := Taken(cfg, got, o);
    OwnAlike(cfg, s.(args := ButLast(s.args)), o, parts);
    TakenGoes(cfg, s, o, parts, own, got, all);
    GoesUnique(cfg, SceneOf(s), o, parts, g, m, use.closed, |got.state.args|, |all.state.args|,
               WantsMore(cfg, got, o) && EndsList(cfg, all.state.args));
    OptionAccepted(cfg, s, o, parts, own, got, all);
  }

  lemma AcceptedOwn(cfg: Settings, s: State, o: nat, parts: Parts, collected: nat)
    requires s.Fits(cfg) && o < |cfg.options| && Accepted(cfg.options[o], parts, collected)
    ensures Own(cfg, Parted(cfg, s, o), o, parts).Some?
  {
    hide Own, Parted;
    OwnAccepts(cfg, Parted(cfg, s, o), o, parts);
  }

  /** If the stack has enough for the option, the option gets enough. */
  lemma GathersEnough(cfg: Settings, s: State, o: nat, parts: Parts, own: Progress, g: nat, m: nat, closed: bool)
    requires s.Fits(cfg) && o < |cfg.options| && s.args != [] && own.state.Fits(cfg)
    requires own.state.args == ButLast(s.args) && own.collected == OwnCount(cfg.options[o], parts)
    requires m <= g < |s.args| && Goes(cfg, SceneOf(s), o, parts, g, m, closed)
    ensures Gather(cfg, own, o, cfg.options[o].MinNum()).collected >= cfg.options[o].MinNum()
  {
    hide Gather, Count, Spec.MinNum, Least, Most, MayTake, Parting, OwnTexts, OwnCount, GivenTexts, Gave, Lacking,
      Hungry;
    var sp := cfg.options[o];
    BoundsAlike(sp);
    var got := Gather(cfg, own, o, sp.MinNum());
    GatherAlike(cfg, own, o, sp.MinNum());
    CollectedCounts(sp, parts, own, g);
    if got.collected < sp.MinNum() {
      GatherGives(cfg, own, o, sp.MinNum());
      CountLater(cfg, o, own, got, 0);
      CountNothing(sp, got);
    }
  }

  /** Whatever may happen to the next token, the step of the loop throws nothing. */
  lemma SingleComplete(cfg: Settings, s: State, use: Use)
    requires s.Fits(cfg) && Happens(cfg, SceneOf(s), use)
    ensures s.args != [] && ParseSingle(cfg, s).Some?
  {
    hide ParseArg, ParsePositional, Recognize, IsArgument, Names, NamesNothing, GoesTo, Receives, Accepted, ParseOption;
    var token := Last(s.args);
    var kind := if s.positionalOnly then Unclassified else Recognize(cfg, token);
    ArgumentAlike(cfg, token);
    KindsExclude(cfg, token);
    if kind == Unclassified {
      if use.Named? {
        NamesExcludes(cfg, token, use.parts, use.option);
      }
      PositionalComplete(cfg, s, use);
    } else if kind != PositionalMark {
      ArgComplete(cfg, s, use, kind);
    }
  }

  lemma PositionalComplete(cfg: Settings, s: State, use: Use)
    requires s.Fits(cfg) && Happens(cfg, SceneOf(s), use) && (s.positionalOnly || IsArgument(cfg, Last(s.args)))
    requires !use.Named?
    ensures ParsePositional(cfg, s).Some?
  {
    hide PositionalFor, IsArgument, Receives, NamesNothing;
    KindsExclude(cfg, Last(s.args));
    ReceivesAlike(cfg, s);
  }

  lemma ArgComplete(cfg: Settings, s: State, use: Use, kind: Classifier)
    requires s.Fits(cfg) && Happens(cfg, SceneOf(s), use) && !s.positionalOnly
    requires kind == Recognize(cfg, Last(s.args)) && kind in [Long, Short, WindowsStyle]
    ensures ParseArg(cfg, s, kind).Some?
  {
    hide ParseArg, ParseOption, Recognize, IsArgument, Names, NamesNothing, GoesTo, Receives, Accepted;
    var token, r := Last(s.args), ParseArg(cfg, s, kind);
    NamesAlike(cfg, s, kind);
    if r.None? {
      var o: nat, parts :| Names(cfg, token, parts, o) && o < |cfg.options| && r == ParseOption(cfg, s, o, parts);
      NamesExcludes(cfg, token, parts, o);
      ArgumentAlike(cfg, token);
      assert use.Named?;
      NamesUnique(cfg, token, parts, o, use.parts, use.option);
      OptionComplete(cfg, s, use);
    }
  }

  /**
   The parser and the story agree: a command line has a story if and only if the run throws nothing, and then the uses
   of the run are the only story.
   */
  lemma {:induction false} ParseIsTheStory(cfg: Settings, s: State, uses: seq<Use>)
    requires s.Fits(cfg)
    ensures Story(cfg, SceneOf(s), uses) <==> Parse(cfg, s).Some? && Parse(cfg, s).value.1 == uses
    decreases Pending(s.args)
  {
    hide ParseSingle, Pending, Parse, Happens, Next, Story;
    ParseTells(cfg, s);
    if Story(cfg, SceneOf(s), uses) {
      ParseStep(cfg, s);
      StoryBegins(cfg, SceneOf(s), uses);
      if s.args != [] {
        SingleComplete(cfg, s, uses[0]);
        SingleShrinks(cfg, s);
        SingleTells(cfg, s);
        var (t, first) := ParseSingle(cfg, s).value;
        if |first| == 1 && Happens(cfg, SceneOf(s), first[0]) && Next(cfg, SceneOf(s), first[0]) == SceneOf(t) {
          HappensUnique(cfg, SceneOf(s), first[0], uses[0]);
          ParseIsTheStory(cfg, t, uses[1..]);
        } else {
          ParseStep(cfg, t);
        }
        StoryUnique(cfg, SceneOf(s), Parse(cfg, s).value.1, uses);
      }
    }
  }

  lemma StoryBegins(cfg: Settings, scene: Scene, uses: seq<Use>)
    requires scene.Fits(cfg) && Story(cfg, scene, uses)
    ensures scene.args != [] ==>
      uses != [] && Happens(cfg, scene, uses[0]) && Story(cfg, Next(cfg, scene, uses[0]), uses[1..])
    ensures scene.args == [] ==> uses == []
  {
    hide Happens, Next;
    if scene.args == [] {
      NothingHappens(cfg, scene);
    }
  }
}
