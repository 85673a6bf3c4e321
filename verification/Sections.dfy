/**
 The section events of the configuration reader: each header opens its section and the sections around
 it that are not open yet, after closing what must not stay open. The reader works on the list of items
 read so far and corrects closers it has already written.
 */
module Sections {
  import opened Bytes

  type Name = seq<byte>
  type Path = seq<Name>

  const OPEN: Name := [PLUS, PLUS]
  const CLOSE: Name := [MINUS, MINUS]

  /** One item of the list the reader returns; what an ordinary item holds does not matter here. */
  datatype ConfigItem = ConfigItem(parents: Path, name: Name)

  /** The lines that matter: a section header, the header of the default section, a line that adds an item. */
  datatype Line = Header(path: Path) | Default | Entry(item: ConfigItem)

  ghost predicate ValidLine(line: Line) {
    match line
    case Header(path) => path != []
    case Default => true
    case Entry(item) => item.name != OPEN && item.name != CLOSE
  }

  // ---------------------------------------------------------------- what well nested means

  /** The sections open after an item, innermost last; None when it opens or closes out of order. */
  function Step(open: seq<Path>, item: ConfigItem): Option<seq<Path>> {
    if item.name == OPEN then
      if item.parents != [] && ButLast(item.parents) == (if open == [] then [] else Last(open))
      then Some(open + [item.parents]) else None
    else if item.name == CLOSE then
      if open != [] && Last(open) == item.parents then Some(ButLast(open)) else None
    else Some(open)
  }

  function Run(items: seq<ConfigItem>): Option<seq<Path>>
    decreases |items|
  {
    if items == [] then Some([]) else
      var before := Run(ButLast(items));
      if before.None? then None else Step(before.value, Last(items))
  }

  lemma RunStep(items: seq<ConfigItem>, item: ConfigItem)
    ensures Run(items + [item]) == if Run(items).None? then None else Step(Run(items).value, item)
  {
    assert ButLast(items + [item]) == items;
  }

  lemma PrefixOfButLast(path: Path)
    requires path != []
    ensures forall k {:trigger path[..k]} :: 0 <= k < |path| ==> ButLast(path)[..k] == path[..k]
    ensures path[..|path|] == path
  {
  }

  /** All prefixes of a path, the path itself last. */
  function Prefixes(path: Path): (r: seq<Path>)
    ensures |r| == |path|
    ensures forall k :: 0 <= k < |r| ==> r[k] == path[..k + 1]
    decreases |path|
  {
    if path == [] then [] else
      PrefixOfButLast(path);
      Prefixes(ButLast(path)) + [path]
  }

  lemma PrefixesOfNothing()
    ensures Prefixes([]) == []
  {
  }

  lemma ClosingRun(items: seq<ConfigItem>, path: Path)
    requires Closing(items, path)
    ensures Run(items) == Some(Prefixes(ButLast(path)))
  {
    assert items == ButLast(items) + [Last(items)];
    CloseInner(ButLast(items), path);
  }

  lemma OpenNext(items: seq<ConfigItem>, path: Path)
    requires path != [] && Run(items) == Some(Prefixes(ButLast(path)))
    ensures Run(items + [ConfigItem(path, OPEN)]) == Some(Prefixes(path))
  {
    RunStep(items, ConfigItem(path, OPEN));
    var open := Prefixes(ButLast(path));
    assert open != [] ==> Last(open) == ButLast(path)[..|path| - 1] == ButLast(path);
  }

  lemma CloseInner(items: seq<ConfigItem>, path: Path)
    requires path != [] && Run(items) == Some(Prefixes(path))
    ensures Run(items + [ConfigItem(path, CLOSE)]) == Some(Prefixes(ButLast(path)))
  {
    RunStep(items, ConfigItem(path, CLOSE));
    var open := Prefixes(path);
    assert Last(open) == path[..|path|] == path;
    assert ButLast(open) == Prefixes(ButLast(path));
  }

  /** Out of order once, out of order for ever. */
  lemma {:induction false} StaysNone(items: seq<ConfigItem>, more: seq<ConfigItem>)
    requires Run(items).None?
    ensures Run(items + more).None?
    decreases |more|
  {
    if more == [] {
      assert items + more == items;
    } else {
      StaysNone(items, ButLast(more));
      assert items + more == (items + ButLast(more)) + [Last(more)];
      RunStep(items + ButLast(more), Last(more));
    }
  }

  // ---------------------------------------------------------------- the events of one header

  /** The list ends with the closer of `path`, and in front of it exactly the prefixes of `path` are open. */
  ghost predicate Closing(output: seq<ConfigItem>, path: Path) {
    && path != [] && output != []
    && Last(output) == ConfigItem(path, CLOSE)
    && Run(ButLast(output)) == Some(Prefixes(path))
  }

  function CloseDown(items: seq<ConfigItem>, size: nat): (r: seq<ConfigItem>)
    requires items != [] && size > 0
    ensures |items| <= |r|
    decreases |Last(items).parents|
  {
    var item := Last(items);
    if |item.parents| < size then items else CloseDown(items + [item.(parents := ButLast(item.parents))], size)
  }

  /** The length of the common front of two paths from `from` on, up to a bound. */
  function Common(a: Path, b: Path, from: nat, bound: nat): (r: nat)
    requires from <= bound <= |a| && bound <= |b|
    ensures from <= r <= bound
    decreases bound - from
  {
    if from == bound || a[from] != b[from] then from else Common(a, b, from + 1, bound)
  }

  function OpenAll(items: seq<ConfigItem>, parents: Path, from: nat): seq<ConfigItem>
    requires from < |parents|
    decreases |parents| - from
  {
    if from + 1 == |parents| then items + [ConfigItem(parents, OPEN)]
    else OpenAll(items + [ConfigItem(parents[..from + 1], OPEN)], parents, from + 1)
  }

  /** What is closed in front of an opener, and how many sections around it stay open. */
  function CloseFor(items: seq<ConfigItem>, parents: Path): (r: (seq<ConfigItem>, nat))
    requires items != [] && parents != []
    ensures r.1 < |parents|
  {
    var closed := CloseDown(items, if |parents| > 1 then |parents| else 2);
    if |parents| == 1 then (closed, 0)
    else
      var bound := if |Last(closed).parents| < |parents| - 1 then |Last(closed).parents| else |parents| - 1;
      var common := Common(Last(closed).parents, parents, 0, bound);
      (if common == bound then ButLast(closed) else CloseDown(closed, common + 2), common)
  }

  /** The list after a header, as the reader makes it of the list before. */
  function Segments(items: seq<ConfigItem>, parents: Path): seq<ConfigItem>
    requires parents != []
  {
    if items == [] || Last(items).name != CLOSE then OpenAll(items, parents, 0)
    else
      var (closed, from) := CloseFor(items, parents);
      OpenAll(closed, parents, from)
  }

  /** The closer of the section that a header or the end of the file finds, if it is not the default one. */
  function CloseCurrent(output: seq<ConfigItem>, current: Path): seq<ConfigItem> {
    if current != [] then output + [ConfigItem(current, CLOSE)] else output
  }

  /** The list after some more lines, and the section they end in. */
  function Read(output: seq<ConfigItem>, current: Path, lines: seq<Line>): (seq<ConfigItem>, Path)
    requires forall k :: 0 <= k < |lines| ==> ValidLine(lines[k])
    decreases |lines|
  {
    if lines == [] then (output, current)
    else
      assert ValidLine(lines[0]);
      match lines[0]
      case Header(path) => Read(Segments(CloseCurrent(output, current), path), path, lines[1..])
      case Default => Read(CloseCurrent(output, current), [], lines[1..])
      case Entry(item) => Read(output + [item], current, lines[1..])
  }

  /** All that the reader makes of a file. */
  function Items(lines: seq<Line>): seq<ConfigItem>
    requires forall k :: 0 <= k < |lines| ==> ValidLine(lines[k])
  {
    var (output, current) := Read([], [], lines);
    if current != [] then CloseDown(CloseCurrent(output, current), 2) else output
  }

  /** Copies the last closer, one level further out, until it has fewer than `size` levels. */
  method CloseDownTo(items: seq<ConfigItem>, size: nat, ghost path: Path) returns (output: seq<ConfigItem>)
    requires items != [] && size >= 2
    ensures output == CloseDown(items, size)
    ensures |items| <= |output| && output[..|items|] == items
    ensures Last(output).name == Last(items).name && |Last(output).parents| < size
    ensures Closing(items, path) ==>
      var n := if |path| < size then |path| else size - 1; n > 0 && Closing(output, path[..n])
  {
    output := items;
    ghost var n: nat := |path|;
    assert path[..n] == path;
    while |Last(output).parents| >= size
      invariant |items| <= |output| && output[..|items|] == items
      invariant Last(output).name == Last(items).name
      invariant CloseDown(items, size) == CloseDown(output, size)
      invariant n <= |path| && (Closing(items, path) ==> Closing(output, path[..n]) && (n == |path| || n >= size - 1))
      decreases |Last(output).parents|
    {
      var item := Last(output);
      ghost var before := output;
      output := output + [item.(parents := ButLast(item.parents))];
      assert ButLast(output) == before;
      if Closing(items, path) {
        ClosingRun(before, path[..n]);
        assert ButLast(path[..n]) == path[..n - 1];
        n := n - 1;
      }
    }
  }

  /** How many leading names two paths share, up to a bound. */
  method CommonLength(a: Path, b: Path, bound: nat) returns (common: nat)
    requires bound <= |a| && bound <= |b|
    ensures common == Common(a, b, 0, bound)
    ensures common <= bound && a[..common] == b[..common]
    ensures common < bound ==> a[common] != b[common]
  {
    common := 0;
    for ii := 0 to bound
      invariant common == ii && a[..ii] == b[..ii] && Common(a, b, 0, bound) == Common(a, b, ii, bound)
    {
      if a[ii] != b[ii] {
        break;
      }
      assert a[..ii + 1] == a[..ii] + [a[ii]] && b[..ii + 1] == b[..ii] + [b[ii]];
      common := common + 1;
    }
  }

  /** Opens the sections around the innermost one, from level `from` on, and then that one. */
  method OpenFrom(items: seq<ConfigItem>, parents: Path, from: nat) returns (output: seq<ConfigItem>)
    requires from < |parents|
    ensures output == OpenAll(items, parents, from)
    ensures |items| < |output| && output[..|items|] == items && Last(output) == ConfigItem(parents, OPEN)
    ensures output[|items|] == ConfigItem(parents[..from + 1], OPEN)
    ensures Run(items) == Some(Prefixes(parents[..from])) ==> Run(output) == Some(Prefixes(parents))
  {
    hide Run, Prefixes;
    output := items;
    ghost var orderly := Run(items) == Some(Prefixes(parents[..from]));
    for ii := from to |parents| - 1
      invariant |items| <= |output| && output[..|items|] == items
      invariant ii > from ==> |items| < |output| && output[|items|] == ConfigItem(parents[..from + 1], OPEN)
      invariant ii == from ==> output == items
      invariant OpenAll(items, parents, from) == OpenAll(output, parents, ii)
      invariant orderly ==> Run(output) == Some(Prefixes(parents[..ii]))
    {
      ghost var path := parents[..ii + 1];
      assert ButLast(path) == parents[..ii];
      if orderly {
        OpenNext(output, path);
      }
      output := output + [ConfigItem(parents[..ii + 1], OPEN)];
    }
    assert ButLast(parents) == parents[..|parents| - 1] && parents[..|parents|] == parents;
    if orderly {
      OpenNext(output, parents);
    }
    output := output + [ConfigItem(parents, OPEN)];
  }

  /**
   The events of a header: closers for what must not stay open, then the openers up to the new section.
   A closer of the common outer sections is written first and taken back.
   */
  method CheckParentSegments(items: seq<ConfigItem>, parents: Path, ghost path: Path) returns (output: seq<ConfigItem>)
    requires parents != []
    ensures output == Segments(items, parents)
    ensures Closing(items, path) ==> Run(output) == Some(Prefixes(parents))
    ensures Run(items) == Some([]) && (items == [] || Last(items).name != CLOSE) ==>
      Run(output) == Some(Prefixes(parents))
    ensures items == [] || Last(items).name != CLOSE ==>
      |items| < |output| && output[..|items|] == items && output[|items|] == ConfigItem(parents[..1], OPEN)
    ensures items != [] ==> |items| <= |output| + 1 && output[..|items| - 1] == ButLast(items)
    ensures output != [] && Last(output) == ConfigItem(parents, OPEN)
  {
    hide Run, Prefixes, OpenAll, CloseFor;
    PrefixesOfNothing();
    assert parents[..0] == [];
    output := items;
    var from := 0;
    if output != [] && Last(output).name == CLOSE {
      output, from := CloseOthers(items, parents, path);
    }
    output := OpenFrom(output, parents, from);
  }

  /** Closes the sections that do not stay open around a new one, which shares its first `from` names with them. */
  method CloseOthers(items: seq<ConfigItem>, parents: Path, ghost path: Path)
    returns (output: seq<ConfigItem>, from: nat)
    requires items != [] && parents != []
    ensures from < |parents| && (output, from) == CloseFor(items, parents)
    ensures Closing(items, path) ==> Run(output) == Some(Prefixes(parents[..from]))
    ensures |items| <= |output| + 1 && output[..|items| - 1] == ButLast(items)
  {
    hide Run, Prefixes, CloseDown, Common, Closing;
    var size := if |parents| > 1 then |parents| else 2;
    output := CloseDownTo(items, size, path);
    from := 0;
    ghost var q := path[..if |path| < size then |path| else size - 1];
    if Closing(items, path) {
      ClosingLast(output, q);
    }
    if |parents| > 1 {
      var bound := if |Last(output).parents| < |parents| - 1 then |Last(output).parents| else |parents| - 1;
      from := CommonLength(Last(output).parents, parents, bound);
      if from == bound {
        assert Closing(items, path) ==> q == parents[..from];
        output := ButLast(output);
      } else {
        output := CloseDownTo(output, from + 2, q);
        if Closing(items, path) {
          ClosingRun(output, q[..from + 1]);
          assert ButLast(q[..from + 1]) == parents[..from];
        }
      }
    } else if Closing(items, path) {
      ClosingRun(output, q);
      assert ButLast(q) == parents[..0];
    }
  }

  lemma ClosingLast(output: seq<ConfigItem>, path: Path)
    requires Closing(output, path)
    ensures path != [] && output != [] && Last(output).parents == path && Run(ButLast(output)) == Some(Prefixes(path))
  {
  }

  // ---------------------------------------------------------------- whole files

  /** A header stands next, before any item and before the end. */
  predicate HeaderNext(lines: seq<Line>)
    decreases |lines|
  {
    lines != [] && (lines[0].Header? || (lines[0].Default? && HeaderNext(lines[1..])))
  }

  /**
   The condition on a file, in section `section` (none in the default section): a return to the default
   section from a section of two or more levels is followed at once by another section.
   */
  predicate Disciplined(lines: seq<Line>, section: Path)
    decreases |lines|
  {
    lines == [] ||
    match lines[0]
    case Header(path) => Disciplined(lines[1..], path)
    case Default => (|section| <= 1 || HeaderNext(lines[1..])) && Disciplined(lines[1..], [])
    case Entry(_) => Disciplined(lines[1..], section)
  }

  /** Without returns to the default section every file keeps the discipline. */
  lemma {:induction false} SectionsOnly(lines: seq<Line>, section: Path)
    requires forall k :: 0 <= k < |lines| ==> !lines[k].Default?
    ensures Disciplined(lines, section)
    decreases |lines|
  {
    if lines != [] {
      SectionsOnly(lines[1..], if lines[0].Header? then lines[0].path else section);
    }
  }

  /** A file that ends in the default section, behind a section of two levels, leaves the outer one open. */
  lemma DefaultLeavesOpen(a: Name, b: Name)
    ensures var lines := [Header([a, b]), Default];
      && (forall k :: 0 <= k < |lines| ==> ValidLine(lines[k]))
      && !Disciplined(lines, [])
      && Items(lines) == [ConfigItem([a], OPEN), ConfigItem([a, b], OPEN), ConfigItem([a, b], CLOSE)]
      && Run(Items(lines)) == Some([[a]])
  {
    var lines := [Header([a, b]), Default];
    assert lines[1..] == [Default] && [Default][1..] == [];
    assert !Disciplined([Default], [a, b]);
    var outer, inner := ConfigItem([a], OPEN), ConfigItem([a, b], OPEN);
    assert [a, b][..1] == [a] && ButLast([a, b]) == [a] && ButLast([a]) == [];
    assert OpenAll([], [a, b], 0) == OpenAll([] + [outer], [a, b], 1) == [outer, inner];
    assert Segments(CloseCurrent([], []), [a, b]) == [outer, inner];
    ReadStep([], [], lines);
    ReadStep([outer, inner], [a, b], [Default]);
    ReadNothing([outer, inner] + [ConfigItem([a, b], CLOSE)], []);
    NestedEvents(a, b);
    assert [outer, inner] + [ConfigItem([a, b], CLOSE)] == [outer, inner, ConfigItem([a, b], CLOSE)];
  }

  lemma NestedEvents(a: Name, b: Name)
    ensures var items := [ConfigItem([a], OPEN), ConfigItem([a, b], OPEN), ConfigItem([a, b], CLOSE)];
      Run(items) == Some([[a]])
  {
    hide Run;
    var outer, inner, closer := ConfigItem([a], OPEN), ConfigItem([a, b], OPEN), ConfigItem([a, b], CLOSE);
    assert ButLast([a, b]) == [a] && ButLast([a]) == [];
    var one: seq<Path>, two: seq<Path> := [[a]], [[a], [a, b]];
    var none: seq<Path> := [];
    assert none + [[a]] == one && one + [[a, b]] == two;
    RunNothing();
    RunStep([], outer);
    assert Step(none, outer) == Some(one);
    assert [] + [outer] == [outer];
    assert Run([outer]) == Some(one);
    RunStep([outer], inner);
    assert Step(one, inner) == Some(two);
    assert [outer] + [inner] == [outer, inner];
    RunStep([outer, inner], closer);
    assert ButLast(two) == one;
    assert [outer, inner] + [closer] == [outer, inner, closer];
  }

  /** Where the reader stands: what is open, what is about to be corrected, or that order is lost. */
  datatype Status = Idle | InSection(path: Path) | Left(path: Path) | Lost

  ghost predicate Invariant(status: Status, output: seq<ConfigItem>, section: Path) {
    match status
    case Idle => section == [] && Run(output) == Some([]) && (output == [] || Last(output).name != CLOSE)
    case InSection(path) => section == path && path != [] && Run(output) == Some(Prefixes(path))
    case Left(path) => section == [] && Closing(output, path)
    case Lost =>
      || (Run(output).None? && output != [] && (Last(output).name == CLOSE ==> Run(ButLast(output)).None?))
      || (section == [] && Run(output).Some? && Run(output).value != [] && Last(Run(output).value) != []
          && output != [] && Last(output).name != CLOSE)
  }

  ghost predicate Hopeful(status: Status, rest: seq<Line>) {
    match status
    case Idle => Disciplined(rest, [])
    case InSection(path) => Disciplined(rest, path)
    case Left(path) => (|path| <= 1 || HeaderNext(rest)) && Disciplined(rest, [])
    case Lost => false
  }

  ghost function NextStatus(status: Status, line: Line): Status {
    match line
    case Header(path) => if status.Lost? then Lost else InSection(path)
    case Default => if status.InSection? then Left(status.path) else status
    case Entry(_) => if status.Left? then (if |status.path| == 1 then Idle else Lost) else status
  }

  lemma HopeStep(status: Status, lines: seq<Line>)
    requires lines != [] && (status.Left? ==> status.path != [])
    ensures Hopeful(status, lines) <==> Hopeful(NextStatus(status, lines[0]), lines[1..])
  {
  }

  /** A header met while something is open that it does not close puts the events out of order. */
  lemma LostHeader(items: seq<ConfigItem>, parents: Path, output: seq<ConfigItem>)
    requires parents != [] && Run(items).Some? && Run(items).value != [] && Last(Run(items).value) != []
    requires |items| < |output| && output[..|items|] == items && output[|items|] == ConfigItem(parents[..1], OPEN)
    ensures Run(output).None?
  {
    hide Run;
    var item := ConfigItem(parents[..1], OPEN);
    assert ButLast(parents[..1]) == [];
    RunStep(items, item);
    assert output[..|items| + 1] == output[..|items|] + [output[|items|]] == items + [item];
    NoneExtends(items + [item], output);
  }

  lemma NoneExtends(items: seq<ConfigItem>, output: seq<ConfigItem>)
    requires Run(items).None? && |items| <= |output| && output[..|items|] == items
    ensures Run(output).None?
  {
    StaysNone(items, output[|items|..]);
    assert output == items + output[|items|..];
  }

  /**
   Reads a whole file: its section events are well nested, and nothing is open at the end, if and only if
   the file keeps the discipline.
   */
  method FromConfig(lines: seq<Line>) returns (output: seq<ConfigItem>)
    requires forall k :: 0 <= k < |lines| ==> ValidLine(lines[k])
    ensures output == Items(lines)
    ensures Run(output) == Some([]) <==> Disciplined(lines, [])
  {
    hide Run, Prefixes, Disciplined, HeaderNext, Segments, CloseDown, Read;
    output := [];
    var current: Path := [];
    ghost var status := Idle;
    RunNothing();
    assert lines[0..] == lines;
    for k := 0 to |lines|
      invariant Invariant(status, output, current)
      invariant Disciplined(lines, []) <==> Hopeful(status, lines[k..])
      invariant Read([], [], lines) == Read(output, current, lines[k..])
    {
      ReadStep(output, current, lines[k..]);
      var line := lines[k];
      ghost var rest := lines[k..];
      assert rest[0] == line && rest[1..] == lines[k + 1..];
      assert ValidLine(line);
      assert Invariant(status, output, current) && (status.Left? ==> status.path != []);
      HopeStep(status, rest);
      match line
      case Header(path) =>
        ghost var before := output;
        if current != [] {
          output := output + [ConfigItem(current, CLOSE)];
          assert ButLast(output) == before;
        }
        ghost var items := output;
        output := CheckParentSegments(output, path, if status.Left? then status.path else current);
        if status.Lost? {
          LostAgain(before, current, items, path, output);
        }
        current := path;
        status := NextStatus(status, line);
      case Default =>
        if current != [] {
          ghost var before := output;
          output := output + [ConfigItem(current, CLOSE)];
          assert ButLast(output) == before;
          if status.Lost? {
            NoneExtends(before, output);
          }
        }
        current := [];
        status := NextStatus(status, line);
      case Entry(item) =>
        EntryKeeps(status, output, current, item);
        output := output + [item];
        status := NextStatus(status, line);
    }
    assert lines[|lines|..] == [];
    ReadNothing(output, current);
    HopeAtEnd(status);
    ghost var before := output;
    if current != [] {
      output := output + [ConfigItem(current, CLOSE)];
      assert ButLast(output) == before;
      ghost var items := output;
      output := CloseDownTo(output, 2, current);
      if status.Lost? {
        NoneExtends(before, items);
        NoneExtends(items, output);
      } else {
        ghost var n := if |current| < 2 then |current| else 1;
        ClosingRun(output, current[..n]);
        assert ButLast(current[..n]) == [];
        PrefixesOfNothing();
      }
    } else if status.Left? {
      ClosingRun(output, status.path);
      PrefixesOfNothing();
      LengthOfPrefixes(ButLast(status.path));
    }
  }

  lemma ReadStep(output: seq<ConfigItem>, current: Path, lines: seq<Line>)
    requires lines != [] && forall k :: 0 <= k < |lines| ==> ValidLine(lines[k])
    ensures ValidLine(lines[0])
    ensures Read(output, current, lines) ==
      match lines[0]
      case Header(path) => Read(Segments(CloseCurrent(output, current), path), path, lines[1..])
      case Default => Read(CloseCurrent(output, current), [], lines[1..])
      case Entry(item) => Read(output + [item], current, lines[1..])
  {
    hide Segments;
    assert ValidLine(lines[0]);
  }

  lemma ReadNothing(output: seq<ConfigItem>, current: Path)
    ensures Read(output, current, []) == (output, current)
  {
  }

  lemma RunNothing()
    ensures Run([]) == Some([])
  {
  }

  lemma LengthOfPrefixes(path: Path)
    ensures |Prefixes(path)| == |path|
  {
  }

  lemma HopeAtEnd(status: Status)
    ensures Hopeful(status, []) <==> status.Idle? || status.InSection? || (status.Left? && |status.path| <= 1)
  {
  }

  lemma LostAgain(before: seq<ConfigItem>, section: Path, items: seq<ConfigItem>, path: Path, output: seq<ConfigItem>)
    requires Invariant(Lost, before, section) && path != []
    requires items == if section != [] then before + [ConfigItem(section, CLOSE)] else before
    requires items != [] ==> |items| <= |output| + 1 && output[..|items| - 1] == ButLast(items)
    requires items == [] || Last(items).name != CLOSE ==>
      |items| < |output| && output[..|items|] == items && output[|items|] == ConfigItem(path[..1], OPEN)
    ensures Run(output).None?
  {
    if section == [] && Run(before).Some? {
      LostHeader(before, path, output);
    } else if section != [] {
      assert ButLast(items) == before;
      NoneExtends(before, output);
    } else if Last(before).name == CLOSE {
      NoneExtends(ButLast(before), output);
    } else {
      NoneExtends(before, output);
    }
  }

  lemma EntryKeeps(status: Status, output: seq<ConfigItem>, section: Path, item: ConfigItem)
    requires Invariant(status, output, section) && item.name != OPEN && item.name != CLOSE
    ensures Invariant(NextStatus(status, Entry(item)), output + [item], section)
  {
    RunStep(output, item);
    if status.Left? {
      ClosingRun(output, status.path);
      var outer := ButLast(status.path);
      if |status.path| > 1 {
        assert Last(Prefixes(outer)) == outer;
      }
    }
  }
}
