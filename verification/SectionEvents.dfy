/**
 The list the configuration reader makes, told without the closers it writes and takes back: which sections each header
 closes and opens, and where the ordinary items stand.
 */
module SectionEvents {
  import opened Bytes
  import opened Sections

  // ---------------------------------------------------------------- closers and openers

  /** The sections on the way to `path` that are deeper than m, closed from the innermost one. */
  function Closers(path: Path, m: nat): seq<ConfigItem>
    decreases |path|
  {
    if |path| <= m then [] else [ConfigItem(path, CLOSE)] + Closers(path[..|path| - 1], m)
  }

  /** The same sections, opened from the outermost one. */
  function Openers(path: Path, m: nat): seq<ConfigItem>
    decreases |path|
  {
    if |path| <= m then [] else Openers(path[..|path| - 1], m) + [ConfigItem(path, OPEN)]
  }

  /** How many sections around the new one are open already; it is opened itself in any case. */
  function Kept(open: Path, path: Path): (m: nat)
    requires path != []
    ensures m <= |open| && m < |path|
    ensures open[..m] == path[..m] && (m < |open| && m + 1 < |path| ==> open[m] != path[m])
  {
    SharedFront(open, path, if |open| < |path| then |open| else |path| - 1)
  }

  function SharedFront(a: Path, b: Path, bound: nat): (m: nat)
    requires bound <= |a| && bound <= |b|
    ensures m <= bound && a[..m] == b[..m] && (m < bound ==> a[m] != b[m])
  {
    if bound == 0 then 0
    else
      var m := SharedFront(a, b, bound - 1);
      if m == bound - 1 && a[m] == b[m] then
        assert a[..bound] == a[..m] + [a[m]] && b[..bound] == b[..m] + [b[m]];
        bound
      else m
  }

  // ---------------------------------------------------------------- the list of a file

  /** Where a section begins: what is open and does not lie around it is closed, and the way to it is opened. */
  function Enter(output: seq<ConfigItem>, open: Path, path: Path): seq<ConfigItem>
    requires path != []
  {
    output + Closers(open, Kept(open, path)) + Openers(path, Kept(open, path))
  }

  /** The list behind a header. */
  function Behind(output: seq<ConfigItem>, section: Path, path: Path): seq<ConfigItem>
    requires path != []
  {
    if section != [] then Enter(output, section, path)
    else if output != [] && Last(output).name == CLOSE then Enter(ButLast(output), Last(output).parents, path)
    else output + Openers(path, 0)
  }

  /** The list behind one line, with the section the reader is in then. */
  function After(output: seq<ConfigItem>, section: Path, line: Line): (seq<ConfigItem>, Path)
    requires ValidLine(line)
  {
    match line
    case Header(path) => (Behind(output, section, path), path)
    case Default => (output + (if section == [] then [] else [ConfigItem(section, CLOSE)]), [])
    case Entry(item) => (output + [item], section)
  }

  /** The list so far, and the section the reader is in; one left for the default section stays listed as closed. */
  function Told(output: seq<ConfigItem>, section: Path, lines: seq<Line>): seq<ConfigItem>
    requires forall k :: 0 <= k < |lines| ==> ValidLine(lines[k])
    decreases |lines|
  {
    if lines == [] then output + Closers(section, 0)
    else
      assert ValidLine(lines[0]);
      var (items, next) := After(output, section, lines[0]);
      Told(items, next, lines[1..])
  }

  // ---------------------------------------------------------------- the reader does just that

  lemma {:induction false} CloseDownTells(output: seq<ConfigItem>, path: Path, size: nat)
    requires path != [] && size >= 2
    ensures var n := if |path| < size then |path| else size - 1;
      && n > 0
      && CloseDown(output + [ConfigItem(path, CLOSE)], size)
        == output + Closers(path, n) + [ConfigItem(path[..n], CLOSE)]
    decreases |path|
  {
    var items := output + [ConfigItem(path, CLOSE)];
    if |path| < size {
      assert path[..|path|] == path && output + [] == output;
    } else {
      var outer := path[..|path| - 1];
      CloseDownTells(items, outer, size);
      assert Last(items).(parents := ButLast(path)) == ConfigItem(outer, CLOSE);
      var n := size - 1;
      if |outer| == n {
        assert outer[..n] == outer == path[..n];
        assert Closers(outer, n) == [];
        assert Closers(path, n) == [ConfigItem(path, CLOSE)] + Closers(outer, n);
      } else {
        assert outer[..n] == path[..n];
      }
      JoinedItems(output, [ConfigItem(path, CLOSE)], Closers(outer, n));
    }
  }

  lemma JoinedItems(a: seq<ConfigItem>, b: seq<ConfigItem>, c: seq<ConfigItem>)
    ensures (a + b) + c == a + (b + c)
  {
  }

  lemma {:induction false} ClosersSplit(path: Path, n: nat, m: nat)
    requires m <= n <= |path|
    ensures Closers(path, n) + Closers(path[..n], m) == Closers(path, m)
    decreases |path|
  {
    if n == |path| {
      assert path[..n] == path;
      assert Closers(path, n) == [];
    } else {
      var outer := path[..|path| - 1];
      ClosersSplit(outer, n, m);
      assert outer[..n] == path[..n];
      JoinedItems([ConfigItem(path, CLOSE)], Closers(outer, n), Closers(path[..n], m));
    }
  }

  lemma ClosersOne(path: Path)
    requires path != []
    ensures Closers(path, |path| - 1) == [ConfigItem(path, CLOSE)]
  {
    assert Closers(path[..|path| - 1], |path| - 1) == [];
  }

  lemma {:induction false} OpenAllTells(items: seq<ConfigItem>, path: Path, from: nat)
    requires from < |path|
    ensures OpenAll(items, path, from) == items + Openers(path, from)
    decreases |path| - from
  {
    OpenersFirst(path, from);
    if from + 1 < |path| {
      var one := [ConfigItem(path[..from + 1], OPEN)];
      OpenAllTells(items + one, path, from + 1);
      JoinedItems(items, one, Openers(path, from + 1));
    } else {
      assert path[..from + 1] == path;
      OpenersNone(path, from + 1);
    }
  }

  lemma OpenersNone(path: Path, m: nat)
    requires |path| <= m
    ensures Openers(path, m) == []
  {
  }

  lemma {:induction false} OpenersFirst(path: Path, from: nat)
    requires from < |path|
    ensures Openers(path, from) == [ConfigItem(path[..from + 1], OPEN)] + Openers(path, from + 1)
    decreases |path|
  {
    var outer := path[..|path| - 1];
    if from + 1 == |path| {
      assert path[..from + 1] == path;
      OpenersNone(outer, from);
    } else {
      OpenersFirst(outer, from);
      assert outer[..from + 1] == path[..from + 1];
      JoinedItems([ConfigItem(path[..from + 1], OPEN)], Openers(outer, from + 1), [ConfigItem(path, OPEN)]);
    }
  }

  lemma {:induction false} CommonIsShared(a: Path, b: Path, from: nat, bound: nat)
    requires from <= bound <= |a| && bound <= |b| && a[..from] == b[..from]
    ensures Common(a, b, from, bound) == SharedFront(a, b, bound)
    decreases bound - from
  {
    var m := SharedFront(a, b, bound);
    if from < bound && a[from] == b[from] {
      assert a[..from + 1] == a[..from] + [a[from]] && b[..from + 1] == b[..from] + [b[from]];
      CommonIsShared(a, b, from + 1, bound);
    } else {
      SharedUnique(a, b, bound, from);
    }
  }

  lemma SharedUnique(a: Path, b: Path, bound: nat, m: nat)
    requires m <= bound <= |a| && bound <= |b| && a[..m] == b[..m] && (m < bound ==> a[m] != b[m])
    ensures SharedFront(a, b, bound) == m
  {
    var n := SharedFront(a, b, bound);
    forall k | 0 <= k < m ensures a[k] == b[k] {
      assert a[..m][k] == b[..m][k];
    }
    forall k | 0 <= k < n ensures a[k] == b[k] {
      assert a[..n][k] == b[..n][k];
    }
  }

  lemma SharedPrefix(a: Path, b: Path, n: nat)
    requires n <= |a| && n <= |b|
    ensures SharedFront(a[..n], b, n) == SharedFront(a, b, n)
  {
    var m := SharedFront(a, b, n);
    assert a[..n][..m] == a[..m];
    SharedUnique(a[..n], b, n, m);
  }

  /** All closers from a level on, and one more, are those from the level below. */
  lemma ClosersMore(output: seq<ConfigItem>, path: Path, n: nat)
    requires n < |path|
    ensures output + Closers(path, n + 1) + [ConfigItem(path[..n + 1], CLOSE)] == output + Closers(path, n)
  {
    ClosersSplit(path, n + 1, n);
    ClosersOne(path[..n + 1]);
    JoinedItems(output, Closers(path, n + 1), [ConfigItem(path[..n + 1], CLOSE)]);
  }

  /** A header behind the closer of the section before. */
  lemma SegmentsTell(output: seq<ConfigItem>, open: Path, path: Path)
    requires open != [] && path != []
    ensures Segments(output + [ConfigItem(open, CLOSE)], path) == Enter(output, open, path)
  {
    hide CloseDown, Closers, Openers, OpenAll, SharedFront, Common;
    var items := output + [ConfigItem(open, CLOSE)];
    var m := Kept(open, path);
    if |path| == 1 {
      CloseDownTells(output, open, 2);
      ClosersMore(output, open, 0);
      OpenAllTells(output + Closers(open, 0), path, 0);
    } else {
      var n := if |open| < |path| then |open| else |path| - 1;
      CloseDownTells(output, open, |path|);
      var closed := output + Closers(open, n) + [ConfigItem(open[..n], CLOSE)];
      SharedPrefix(open, path, n);
      CommonIsShared(open[..n], path, 0, n);
      OpenAllTells(output + Closers(open, m), path, m);
      assert ButLast(closed) == output + Closers(open, n);
      if m < n {
        CloseDownTells(output + Closers(open, n), open[..n], m + 2);
        assert open[..n][..m + 1] == open[..m + 1];
        ClosersSplit(open, n, m + 1);
        JoinedItems(output, Closers(open, n), Closers(open[..n], m + 1));
        ClosersMore(output, open, m);
      }
    }
  }

  /** The list ends with an item that is no closer, or with the closer of some section. */
  ghost predicate EndsWell(output: seq<ConfigItem>) {
    output == [] || Last(output).name != CLOSE || Last(output).parents != []
  }

  lemma EnterEnds(output: seq<ConfigItem>, path: Path, m: nat)
    requires m < |path|
    ensures EndsWell(output + Openers(path, m))
  {
    assert Openers(path, m) == Openers(path[..|path| - 1], m) + [ConfigItem(path, OPEN)];
    assert Last(output + Openers(path, m)) == ConfigItem(path, OPEN);
  }

  lemma {:induction false} ReadTells(output: seq<ConfigItem>, section: Path, lines: seq<Line>)
    requires EndsWell(output) && forall k :: 0 <= k < |lines| ==> ValidLine(lines[k])
    ensures var (items, current) := Read(output, section, lines);
      (if current != [] then CloseDown(CloseCurrent(items, current), 2) else items) == Told(output, section, lines)
    decreases |lines|
  {
    hide Segments, CloseDown, Behind, EndsWell, Openers, Closers;
    if lines == [] {
      EndTells(output, section);
    } else {
      ReadStep(output, section, lines);
      assert ValidLine(lines[0]);
      match lines[0]
      case Header(path) =>
        HeaderTells(output, section, path);
        ReadTells(Behind(output, section, path), path, lines[1..]);
      case Default =>
        DefaultTells(output, section);
        ReadTells(CloseCurrent(output, section), [], lines[1..]);
      case Entry(item) =>
        EntryEnds(output, item);
        ReadTells(output + [item], section, lines[1..]);
    }
  }

  lemma EndTells(output: seq<ConfigItem>, section: Path)
    ensures output + Closers(section, 0) ==
      if section != [] then CloseDown(CloseCurrent(output, section), 2) else output
  {
    hide CloseDown;
    if section != [] {
      CloseDownTells(output, section, 2);
      ClosersMore(output, section, 0);
    }
  }

  lemma EntryEnds(output: seq<ConfigItem>, item: ConfigItem)
    requires item.name != CLOSE || item.parents != []
    ensures EndsWell(output + [item])
  {
  }

  lemma HeaderTells(output: seq<ConfigItem>, section: Path, path: Path)
    requires EndsWell(output) && path != []
    ensures Segments(CloseCurrent(output, section), path) == Behind(output, section, path)
    ensures EndsWell(Behind(output, section, path))
  {
    hide CloseFor, Closers, Openers, OpenAll;
    if section != [] {
      SegmentsTell(output, section, path);
      EnterEnds(output + Closers(section, Kept(section, path)), path, Kept(section, path));
    } else if output != [] && Last(output).name == CLOSE {
      var q := Last(output).parents;
      assert output == ButLast(output) + [ConfigItem(q, CLOSE)];
      SegmentsTell(ButLast(output), q, path);
      EnterEnds(ButLast(output) + Closers(q, Kept(q, path)), path, Kept(q, path));
    } else {
      OpenAllTells(output, path, 0);
      EnterEnds(output, path, 0);
    }
  }

  lemma DefaultTells(output: seq<ConfigItem>, section: Path)
    requires EndsWell(output)
    ensures CloseCurrent(output, section) == output + if section == [] then [] else [ConfigItem(section, CLOSE)]
    ensures EndsWell(CloseCurrent(output, section))
  {
    assert output + [] == output;
  }

  /** The items of every file are those told here. */
  lemma ItemsTold(lines: seq<Line>)
    requires forall k :: 0 <= k < |lines| ==> ValidLine(lines[k])
    ensures Items(lines) == Told([], [], lines)
  {
    ReadTells([], [], lines);
  }

  // ---------------------------------------------------------------- ordinary items

  /** The items that open or close nothing. */
  function Ordinary(items: seq<ConfigItem>): seq<ConfigItem>
    decreases |items|
  {
    if items == [] then []
    else Ordinary(ButLast(items)) + if Last(items).name != OPEN && Last(items).name != CLOSE then [Last(items)] else []
  }

  function Entries(lines: seq<Line>): seq<ConfigItem>
    decreases |lines|
  {
    if lines == [] then [] else (if lines[0].Entry? then [lines[0].item] else []) + Entries(lines[1..])
  }

  lemma {:induction false} OrdinaryConcat(a: seq<ConfigItem>, b: seq<ConfigItem>)
    ensures Ordinary(a + b) == Ordinary(a) + Ordinary(b)
    decreases |b|
  {
    if b == [] {
      assert a + b == a;
    } else {
      assert ButLast(a + b) == a + ButLast(b) && Last(a + b) == Last(b);
      OrdinaryConcat(a, ButLast(b));
    }
  }

  lemma OrdinaryOne(item: ConfigItem)
    ensures Ordinary([item]) == if item.name != OPEN && item.name != CLOSE then [item] else []
  {
    assert ButLast([item]) == [];
  }

  lemma {:induction false} EventsOnly(path: Path, m: nat)
    ensures Ordinary(Closers(path, m)) == [] == Ordinary(Openers(path, m))
    decreases |path|
  {
    if |path| > m {
      var outer := path[..|path| - 1];
      EventsOnly(outer, m);
      OrdinaryOne(ConfigItem(path, OPEN));
      OrdinaryOne(ConfigItem(path, CLOSE));
      OrdinaryConcat([ConfigItem(path, CLOSE)], Closers(outer, m));
      OrdinaryConcat(Openers(outer, m), [ConfigItem(path, OPEN)]);
    }
  }

  lemma EnterOrdinary(output: seq<ConfigItem>, open: Path, path: Path)
    requires path != []
    ensures Ordinary(Enter(output, open, path)) == Ordinary(output)
  {
    hide Ordinary, Closers, Openers, SharedFront;
    var m := Kept(open, path);
    EventsOnly(open, m);
    EventsOnly(path, m);
    OrdinaryConcat(output, Closers(open, m));
    OrdinaryConcat(output + Closers(open, m), Openers(path, m));
  }

  lemma BehindOrdinary(output: seq<ConfigItem>, section: Path, path: Path)
    requires path != []
    ensures Ordinary(Behind(output, section, path)) == Ordinary(output)
  {
    hide Enter, Openers;
    if section != [] {
      EnterOrdinary(output, section, path);
    } else if output != [] && Last(output).name == CLOSE {
      EnterOrdinary(ButLast(output), Last(output).parents, path);
    } else {
      EventsOnly(path, 0);
      OrdinaryConcat(output, Openers(path, 0));
    }
  }

  lemma AfterOrdinary(output: seq<ConfigItem>, section: Path, line: Line)
    requires ValidLine(line)
    ensures Ordinary(After(output, section, line).0)
      == Ordinary(output) + if line.Entry? then [line.item] else []
  {
    hide Behind, Ordinary;
    match line
    case Header(path) => BehindOrdinary(output, section, path);
    case Default =>
      NothingOrdinary();
      OrdinaryOne(ConfigItem(section, CLOSE));
      OrdinaryConcat(output, if section == [] then [] else [ConfigItem(section, CLOSE)]);
    case Entry(item) =>
      OrdinaryOne(item);
      OrdinaryConcat(output, [item]);
  }

  lemma TellsNext(output: seq<ConfigItem>, section: Path, lines: seq<Line>)
    requires lines != [] && forall k :: 0 <= k < |lines| ==> ValidLine(lines[k])
    ensures ValidLine(lines[0])
    ensures var (items, next) := After(output, section, lines[0]);
      Told(output, section, lines) == Told(items, next, lines[1..])
  {
    hide Behind;
    assert ValidLine(lines[0]);
  }

  /** Without its events the list is the items of the file, in their order. */
  lemma {:induction false} ToldOrdinary(output: seq<ConfigItem>, section: Path, lines: seq<Line>)
    requires forall k :: 0 <= k < |lines| ==> ValidLine(lines[k])
    ensures Ordinary(Told(output, section, lines)) == Ordinary(output) + Entries(lines)
    decreases |lines|
  {
    hide After, Ordinary, Told, ValidLine;
    if lines == [] {
      ToldNothing(output, section);
      assert Ordinary(output) + [] == Ordinary(output);
    } else {
      TellsNext(output, section, lines);
      var (items, next) := After(output, section, lines[0]);
      AfterOrdinary(output, section, lines[0]);
      JoinedItems(Ordinary(output), if lines[0].Entry? then [lines[0].item] else [], Entries(lines[1..]));
      ToldOrdinary(items, next, lines[1..]);
    }
  }

  lemma ToldNothing(output: seq<ConfigItem>, section: Path)
    ensures Ordinary(Told(output, section, [])) == Ordinary(output)
  {
    hide Ordinary, Closers;
    EventsOnly(section, 0);
    OrdinaryConcat(output, Closers(section, 0));
  }

  lemma NothingOrdinary()
    ensures Ordinary([]) == []
  {
  }

  lemma KeepsEntries(lines: seq<Line>)
    requires forall k :: 0 <= k < |lines| ==> ValidLine(lines[k])
    ensures Ordinary(Items(lines)) == Entries(lines)
  {
    hide Ordinary, Told;
    ItemsTold(lines);
    ToldOrdinary([], [], lines);
    NothingOrdinary();
  }
}
