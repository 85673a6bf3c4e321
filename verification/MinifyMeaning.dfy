/**
 Minifying keeps the meaning of every text the parser accepts as a whole, printed by this library or not:
 what is left of the text is parsed to the same tree. Without the end check the same holds of everything
 but numbers, which can grow together with what follows them.
 */
module MinifyMeaning {
  import opened Bytes
  import opened Unicode
  import opened JsonValue
  import opened JsonNumber
  import opened JsonString
  import opened JsonRender
  import opened JsonParse
  import M = Minify

  // ---------------------------------------------------------------- literals read at another place

  /** From p to e in a, and from q on in b, stand the same bytes. */
  ghost predicate Same(a: seq<byte>, p: nat, e: nat, b: seq<byte>, q: nat) {
    e < |a| && p <= e + 1 && q + e - p < |b| && forall k :: p <= k <= e ==> b[q + (k - p)] == a[k]
  }

  lemma SameFrom(a: seq<byte>, p: nat, e: nat, b: seq<byte>, q: nat, n: nat)
    requires Same(a, p, e, b, q) && p + n <= e + 1
    ensures Same(a, p + n, e, b, q + n)
  {
    forall k | p + n <= k <= e ensures b[q + n + (k - (p + n))] == a[k] {
      assert b[q + (k - p)] == a[k];
    }
  }

  lemma SameInside(a: seq<byte>, p: nat, e: nat, b: seq<byte>, q: nat)
    requires Same(a, p, e, b, q)
    ensures e < |a| && p <= e + 1 && q + e - p < |b|
  {
  }

  lemma SameAt(a: seq<byte>, p: nat, e: nat, b: seq<byte>, q: nat)
    requires Same(a, p, e, b, q) && p <= e
    ensures e < |a| && q + (e - p) < |b| && b[q] == a[p]
    ensures p < e ==> b[q + 1] == a[p + 1]
  {
    assert b[q + (p - p)] == a[p];
    assert p < e ==> b[q + (p + 1 - p)] == a[p + 1];
  }

  lemma {:induction false} ScanShift(a: seq<byte>, p: nat, b: seq<byte>, q: nat)
    requires ScanString(a, p).Closed? && Same(a, p, ScanString(a, p).end, b, q)
    ensures ScanString(b, q) == Closed(q + (ScanString(a, p).end - p), ScanString(a, p).skipped)
    decreases |a| - p
  {
    hide Same;
    var e := ScanString(a, p).end;
    SameAt(a, p, e, b, q);
    if a[p] == BACKSLASH {
      SameFrom(a, p, e, b, q, 2);
      ScanShift(a, p + 2, b, q + 2);
    } else if a[p] != QUOTE {
      SameFrom(a, p, e, b, q, 1);
      ScanShift(a, p + 1, b, q + 1);
    }
  }

  lemma {:induction false} HexShift(a: seq<byte>, p: nat, e: nat, b: seq<byte>, q: nat, m: nat, n: nat)
    requires Same(a, p, e, b, q) && p + m + n <= e + 1
    ensures HexValue(b, q + m, n) == HexValue(a, p + m, n)
    decreases n
  {
    if n > 0 {
      HexShift(a, p, e, b, q, m, n - 1);
      assert b[q + (p + m + n - 1 - p)] == a[p + m + n - 1];
    }
  }

  lemma Hex4Shift(a: seq<byte>, p: nat, e: nat, b: seq<byte>, q: nat, m: nat)
    requires Same(a, p, e, b, q) && p + m + 4 <= e + 1
    ensures Hex4(b, q + m) == Hex4(a, p + m)
  {
    hide HexValue;
    HexShift(a, p, e, b, q, m, 4);
  }

  lemma LiteralShift(a: seq<byte>, p: nat, e: nat, b: seq<byte>, q: nat)
    requires Same(a, p, e, b, q) && p <= e
    ensures ReadLiteral(b, q, q + (e - p)) == ReadLiteral(a, p, e)
  {
    hide Hex4, DecodeUtf16;
    if e - p >= 6 {
      Hex4Shift(a, p, e, b, q, 2);
    }
    if e - p >= 12 {
      Hex4Shift(a, p, e, b, q, 8);
      assert b[q + (p + 6 - p)] == a[p + 6] && b[q + (p + 7 - p)] == a[p + 7];
    }
  }

  lemma {:induction false} DecodeShift(a: seq<byte>, p: nat, e: nat, b: seq<byte>, q: nat, f: nat)
    requires Same(a, p, e, b, q) && f + p == q + e
    ensures Decode(a, p, e).Text? ==> Decode(b, q, f) == Decode(a, p, e)
    decreases e + 1 - p
  {
    hide ReadLiteral, SimpleEscape, Utf8, Same;
    SameInside(a, p, e, b, q);
    if p < e {
      SameAt(a, p, e, b, q);
      if a[p] != BACKSLASH {
        SameFrom(a, p, e, b, q, 1);
        DecodeShift(a, p + 1, e, b, q + 1, f);
      } else if a[p + 1] == LOWER_U {
        LiteralShift(a, p, e, b, q);
        var r := ReadLiteral(a, p, e);
        if r.Some? {
          SameFrom(a, p, e, b, q, r.value.1);
          DecodeShift(a, p + r.value.1, e, b, q + r.value.1, f);
        }
      } else {
        SameFrom(a, p, e, b, q, 2);
        DecodeShift(a, p + 2, e, b, q + 2, f);
      }
    }
  }

  // ---------------------------------------------------------------- places in the text and in what is left of it

  ghost predicate IsText(t: seq<byte>) {
    Terminated(t) && NulFree(t[..|t| - 1])
  }

  /** What is left of the text from position i on. */
  ghost function Left(t: seq<byte>, i: nat): Option<seq<byte>>
    requires i < |t|
  {
    M.Minified(t[i..|t| - 1])
  }

  /** The place in u, which ends as the minified text does, that belongs to position i of t. */
  ghost function Place(t: seq<byte>, u: seq<byte>, i: nat): (r: nat)
    requires i < |t|
    ensures u != [] ==> r < |u|
  {
    if Left(t, i).Some? && |Left(t, i).value| < |u| then |u| - 1 - |Left(t, i).value| else 0
  }

  ghost predicate Maps(t: seq<byte>, u: seq<byte>, i: nat)
    requires i < |t|
  {
    Left(t, i).Some? && |Left(t, i).value| < |u| && At(u, Place(t, u, i), Left(t, i).value + [NUL])
  }

  /** If the text behind k keeps its place, so does the text behind i. */
  ghost predicate Leads(t: seq<byte>, u: seq<byte>, i: nat, k: nat)
    requires i < |t| && k < |t|
  {
    (Left(t, i).Some? <==> Left(t, k).Some?) && (Maps(t, u, i) ==> Maps(t, u, k))
  }

  /** What is read at a position is read at its place, and up to the place of its end. */
  ghost predicate Reads<T>(t: seq<byte>, u: seq<byte>, i: nat, here: Parsed<T>, there: Parsed<T>)
    requires i < |t|
  {
    && here.Done? && here.offset < |t|
    && Leads(t, u, i, here.offset)
    && (Maps(t, u, i) ==> there == Done(here.value, Place(t, u, here.offset)))
  }

  lemma Moves(t: seq<byte>, u: seq<byte>, i: nat, k: nat, v: seq<byte>)
    requires i < |t| && k < |t| && Left(t, i) == Keep(v, Left(t, k))
    ensures Leads(t, u, i, k)
    ensures Maps(t, u, i) ==> Place(t, u, k) == Place(t, u, i) + |v| && At(u, Place(t, u, i), v)
  {
    hide M.Minified;
    if Maps(t, u, i) {
      Joined(v, Left(t, k).value, [NUL]);
      AtConcat(u, Place(t, u, i), v, Left(t, k).value + [NUL]);
    }
  }

  /** The text from i on, with n bytes taken from its front. */
  lemma Front(t: seq<byte>, i: nat, n: nat)
    requires i + n < |t|
    ensures t[i..|t| - 1] == t[i..i + n] + t[i + n..|t| - 1]
  {
  }

  lemma PlainRun(t: seq<byte>, u: seq<byte>, i: nat, n: nat)
    requires i + n < |t| && M.Plain(t[i..i + n])
    ensures Leads(t, u, i, i + n)
    ensures Maps(t, u, i) ==> Place(t, u, i + n) == Place(t, u, i) + n && At(u, Place(t, u, i), t[i..i + n])
  {
    hide M.Minified, M.Plain;
    Front(t, i, n);
    M.PlainStays(t[i..i + n], t[i + n..|t| - 1]);
    Moves(t, u, i, i + n, t[i..i + n]);
  }

  predicate IsMark(b: byte) {
    b == COMMA || b == COLON || b == LBRACKET || b == RBRACKET || b == LBRACE || b == RBRACE
  }

  lemma Mark(t: seq<byte>, u: seq<byte>, i: nat)
    requires i + 1 < |t| && IsMark(t[i])
    ensures Leads(t, u, i, i + 1)
    ensures Maps(t, u, i) ==> Place(t, u, i + 1) == Place(t, u, i) + 1 < |u| && u[Place(t, u, i)] == t[i]
  {
    hide Left, Place, Maps;
    var run := t[i..i + 1];
    assert run == [t[i]];
    PlainRun(t, u, i, 1);
    if Maps(t, u, i) {
      AtIndex(u, Place(t, u, i), run, 0);
    }
  }

  // ---------------------------------------------------------------- white space

  lemma BlankLeft(t: seq<byte>, i: nat)
    requires IsText(t) && i + 1 < |t| && t[i] <= 32
    ensures Left(t, i) == if M.IsSpace(t[i]) then Left(t, i + 1) else Keep([t[i]], Left(t, i + 1))
  {
    var s := t[i..|t| - 1];
    assert s[1..] == t[i + 1..|t| - 1];
  }

  /** Every byte but a slash opens what is left at its position. */
  lemma FirstLeft(t: seq<byte>, i: nat)
    requires i + 1 < |t| && !M.IsSpace(t[i]) && t[i] != SLASH
    ensures Left(t, i).Some? ==> Left(t, i).value != [] && Left(t, i).value[0] == t[i]
  {
    var s := t[i..|t| - 1];
    assert s[0] == t[i];
  }

  /** Skipping at a place ends at the place where skipping at its position ends. */
  ghost predicate Skips(t: seq<byte>, u: seq<byte>, i: nat)
    requires i < |t| && u != []
  {
    var c, p := SkipSpace(t, i), Place(t, u, i);
    SkipSpace(u, p) == Place(t, u, c) && u[Place(t, u, c)] == t[c] && (u[p] <= 32 || u[p] == t[c])
  }

  /** White space that is skipped in the text is skipped in what is left of it, as far as it is left. */
  lemma {:induction false} Blanks(t: seq<byte>, u: seq<byte>, i: nat)
    requires IsText(t) && Terminated(u) && i < |t| && t[SkipSpace(t, i)] != SLASH
    ensures Leads(t, u, i, SkipSpace(t, i))
    ensures Maps(t, u, i) ==> Skips(t, u, i)
    decreases |t| - i
  {
    hide Left;
    if t[i] > 32 || i + 1 == |t| {
      LeftAtStop(t, u, i);
    } else {
      BlankLeft(t, i);
      Blanks(t, u, i + 1);
      if !M.IsSpace(t[i]) {
        Moves(t, u, i, i + 1, [t[i]]);
        if Maps(t, u, i) {
          AtIndex(u, Place(t, u, i), [t[i]], 0);
        }
      }
    }
  }

  lemma LeftAtStop(t: seq<byte>, u: seq<byte>, i: nat)
    requires Terminated(t) && Terminated(u) && i < |t| && t[i] != SLASH && (t[i] > 32 || i + 1 == |t|)
    ensures SkipSpace(t, i) == i
    ensures Maps(t, u, i) ==> var p := Place(t, u, i); p < |u| && u[p] == t[i] && SkipSpace(u, p) == p
  {
    hide M.Minified;
    if Maps(t, u, i) {
      var p, m := Place(t, u, i), Left(t, i).value;
      AtIndex(u, p, m + [NUL], 0);
      if i + 1 == |t| {
        assert t[i..|t| - 1] == [];
        NothingLeft();
      } else {
        FirstLeft(t, i);
      }
    }
  }

  lemma NothingLeft()
    ensures M.Minified([]) == Some([])
  {
  }

  // ---------------------------------------------------------------- single values

  /** What may stand behind a value in an accepted text, after white space. */
  predicate Follows(t: seq<byte>, i: nat)
    requires i < |t|
  {
    var b := t[SkipSpace(t, i)];
    b == COMMA || b == RBRACKET || b == RBRACE || b == NUL
  }

  /** The first byte that is left behind a position could not continue a numeral. */
  ghost predicate Apart(t: seq<byte>, k: nat)
    requires k < |t|
  {
    Left(t, k).Some? ==> !IsNumeral((Left(t, k).value + [NUL])[0])
  }

  lemma FollowsApart(t: seq<byte>, k: nat)
    requires IsText(t) && k < |t| && Follows(t, k)
    ensures Apart(t, k)
  {
    hide M.Minified, SkipSpace;
    if Left(t, k).Some? {
      var u := Left(t, k).value + [NUL];
      assert u[0..|u|] == u;
      Blanks(t, u, k);
    }
  }

  lemma KeywordKept(t: seq<byte>, u: seq<byte>, i: nat, word: seq<byte>)
    requires i + |word| < |t| && StartsWith(t, i, word) && M.Plain(word)
    ensures Leads(t, u, i, i + |word|)
    ensures Maps(t, u, i) ==> Place(t, u, i + |word|) == Place(t, u, i) + |word| && StartsWith(u, Place(t, u, i), word)
  {
    hide Left, Place, Maps, M.Plain;
    PlainRun(t, u, i, |word|);
  }

  predicate StartsNumber(b: byte) { b == MINUS || IsDigit(b) }

  /** The bytes of a numeral are moved as they are. */
  lemma NumberMoved(t: seq<byte>, u: seq<byte>, i: nat)
    requires IsText(t) && i < |t| && ParseNumber(t, i).Done?
    ensures var k := ParseNumber(t, i).offset;
      && k - i <= NUMERAL_LIMIT
      && (forall q :: i <= q < k ==> IsNumeral(t[q]))
      && Leads(t, u, i, k)
      && (Maps(t, u, i) ==> Place(t, u, k) == Place(t, u, i) + (k - i) && At(u, Place(t, u, i), t[i..k]))
  {
    hide Strtod, Place, Left, Maps;
    var k := ParseNumber(t, i).offset;
    var s := t[i..k];
    forall q | 0 <= q < |s| ensures !M.IsSpace(s[q]) && s[q] != SLASH && s[q] != QUOTE {
      assert IsNumeral(t[i + q]);
    }
    PlainRun(t, u, i, k - i);
  }

  /** A numeral is read to its end if nothing that is left behind it continues it. */
  lemma WholeNumeral(t: seq<byte>, i: nat)
    requires IsText(t) && i < |t| && ParseNumber(t, i).Done?
    requires var k := ParseNumber(t, i).offset; Apart(t, k) && Left(t, k).Some?
    ensures ParseNumber(t, i).offset == i + CopyEnd(t, i, 0)
  {
    hide Strtod, CopyEnd, M.Minified;
    var k, n := ParseNumber(t, i).offset, CopyEnd(t, i, 0);
    if k < i + n {
      NumeralEnds(t, i, n);
      assert IsNumeral(t[k]);
      FirstLeft(t, k);
    }
  }

  lemma NumberKept(t: seq<byte>, u: seq<byte>, i: nat)
    requires IsText(t) && Terminated(u) && i < |t| && ParseNumber(t, i).Done? && Apart(t, ParseNumber(t, i).offset)
    ensures Reads(t, u, i, ParseNumber(t, i), ParseNumber(u, Place(t, u, i)))
  {
    hide Strtod, CopyEnd, Place, Left, Maps, Apart;
    NumberMoved(t, u, i);
    var k := ParseNumber(t, i).offset;
    if Maps(t, u, i) {
      var p, s := Place(t, u, i), t[i..k];
      LeftBehind(t, u, k);
      WholeNumeral(t, i);
      forall q | p <= q < p + |s| ensures IsNumeral(u[q]) {
        AtIndex(u, p, s, q - p);
        assert s[q - p] == t[i + (q - p)];
      }
      CopiesText(u, p, 0, |s|);
      assert u[p..p + |s|] == s;
    }
  }

  lemma LeftBehind(t: seq<byte>, u: seq<byte>, k: nat)
    requires k < |t| && Maps(t, u, k) && Apart(t, k)
    ensures Left(t, k).Some? && Place(t, u, k) < |u| && !IsNumeral(u[Place(t, u, k)])
  {
    hide M.Minified, IsNumeral;
    AtIndex(u, Place(t, u, k), Left(t, k).value + [NUL], 0);
  }

  lemma ScanInside(t: seq<byte>, i: nat)
    requires IsText(t) && i + 1 < |t| && ScanString(t, i + 1).Closed? && t[i] == QUOTE
    ensures var e := ScanString(t, i + 1).end;
      e + 1 < |t| && Left(t, i) == Keep(t[i..e + 1], Left(t, e + 1))
  {
    hide ScanString, M.Minified;
    var e := ScanString(t, i + 1).end;
    var text := t[..|t| - 1];
    var s := text[i..];
    assert s == t[i..|t| - 1];
    assert Same(t, i + 1, e, s, 1);
    ScanShift(t, i + 1, s, 1);
    M.MinifiedLiteral(text, i);
    assert text[e + 1..] == t[e + 1..|t| - 1];
    assert text[i..e + 1] == t[i..e + 1];
  }

  lemma StringKept(t: seq<byte>, u: seq<byte>, i: nat)
    requires IsText(t) && Terminated(u) && i < |t| && ParseString(t, i).Done?
    ensures Maps(t, u, i) ==> u[Place(t, u, i)] == QUOTE
    ensures Reads(t, u, i, ParseString(t, i), ParseString(u, Place(t, u, i)))
  {
    hide ScanString, Decode, CString, Place, Left, Maps, Leads;
    var e := ScanString(t, i + 1).end;
    ScanInside(t, i);
    var v := t[i..e + 1];
    Moves(t, u, i, e + 1, v);
    if Maps(t, u, i) {
      var p := Place(t, u, i);
      LiteralAt(t, i, e, u, p);
      ScanShift(t, i + 1, u, p + 1);
      DecodeShift(t, i + 1, e, u, p + 1, p + (e - i));
      AtIndex(u, p, v, 0);
    }
  }

  lemma LiteralAt(t: seq<byte>, i: nat, e: nat, u: seq<byte>, p: nat)
    requires i < e < |t| && At(u, p, t[i..e + 1])
    ensures Same(t, i + 1, e, u, p + 1)
  {
    var v := t[i..e + 1];
    forall k | i + 1 <= k <= e ensures u[p + 1 + (k - (i + 1))] == t[k] {
      AtIndex(u, p, v, k - i);
    }
  }

  // ---------------------------------------------------------------- trees

  /** A value begins with a byte that is neither skipped nor taken for a comment or a byte order mark. */
  lemma ValueStart(t: seq<byte>, i: nat, d: nat)
    requires Terminated(t) && i < |t| && ParseValue(t, i, d).Done?
    ensures 32 < t[i] < 128 && t[i] != SLASH && i + 1 < |t|
  {
    hide ParseString, ParseNumber, ParseArray, ParseObject;
    StartsWithFirst(t, i, NULL_TEXT);
    StartsWithFirst(t, i, FALSE_TEXT);
    StartsWithFirst(t, i, TRUE_TEXT);
  }

  lemma {:induction false} ValueKept(t: seq<byte>, u: seq<byte>, i: nat, d: nat)
    requires IsText(t) && Terminated(u) && i < |t| && ParseValue(t, i, d).Done?
    requires StartsNumber(t[i]) ==> Apart(t, ParseValue(t, i, d).offset)
    ensures Reads(t, u, i, ParseValue(t, i, d), ParseValue(u, Place(t, u, i), d))
    decreases |t| - i, 1
  {
    hide ParseString, ParseNumber, ParseArray, ParseObject, Place, Left, Maps, Leads, Apart, SkipSpace;
    ValueStart(t, i, d);
    FirstKept(t, u, i);
    var p := Place(t, u, i);
    if StartsWith(t, i, NULL_TEXT) {
      KeywordKept(t, u, i, NULL_TEXT);
    } else if StartsWith(t, i, FALSE_TEXT) {
      KeywordKept(t, u, i, FALSE_TEXT);
      OneKeyword(u, p);
    } else if StartsWith(t, i, TRUE_TEXT) {
      KeywordKept(t, u, i, TRUE_TEXT);
      OneKeyword(u, p);
    } else if t[i] == QUOTE {
      StringKept(t, u, i);
      if Maps(t, u, i) {
        ValueIsString(u, p, d);
      }
    } else if StartsNumber(t[i]) {
      NumberKept(t, u, i);
      if Maps(t, u, i) {
        ValueIsNumber(u, p, d);
      }
    } else if t[i] == LBRACKET {
      ArrayKept(t, u, i, d);
    } else {
      ObjectKept(t, u, i, d);
    }
  }

  lemma FirstKept(t: seq<byte>, u: seq<byte>, i: nat)
    requires i + 1 < |t| && t[i] > 32 && t[i] != SLASH
    ensures Maps(t, u, i) ==> Place(t, u, i) < |u| && u[Place(t, u, i)] == t[i]
  {
    hide M.Minified;
    if Maps(t, u, i) {
      FirstLeft(t, i);
      AtIndex(u, Place(t, u, i), Left(t, i).value + [NUL], 0);
    }
  }

  lemma OneKeyword(t: seq<byte>, i: nat)
    requires i < |t|
    ensures StartsWith(t, i, FALSE_TEXT) ==> !StartsWith(t, i, NULL_TEXT)
    ensures StartsWith(t, i, TRUE_TEXT) ==> !StartsWith(t, i, NULL_TEXT) && !StartsWith(t, i, FALSE_TEXT)
  {
    StartsWithFirst(t, i, NULL_TEXT);
    StartsWithFirst(t, i, FALSE_TEXT);
    StartsWithFirst(t, i, TRUE_TEXT);
  }

  lemma {:induction false} ArrayKept(t: seq<byte>, u: seq<byte>, i: nat, d: nat)
    requires IsText(t) && Terminated(u) && i + 1 < |t| && t[i] == LBRACKET && ParseValue(t, i, d).Done?
    ensures Reads(t, u, i, ParseValue(t, i, d), ParseValue(u, Place(t, u, i), d))
    decreases |t| - i, 0
  {
    hide ParseItems, ParseArray, ParseValue, Place, Left, Maps, SkipSpace;
    ValueIsArray(t, i, d);
    ArrayStep(t, i, d);
    var a := SkipSpace(t, i + 1);
    Mark(t, u, i);
    if t[a] == RBRACKET && a + 1 < |t| {
      Blanks(t, u, i + 1);
      Mark(t, u, a);
    } else {
      SkipSpaceStops(t, a, a);
      ItemsStart(t, a, d + 1);
      Blanks(t, u, i + 1);
      ItemsKept(t, u, a, d + 1);
    }
    if Maps(t, u, i) {
      ValueIsArray(u, Place(t, u, i), d);
      ArrayStep(u, Place(t, u, i), d);
    }
  }

  lemma ItemsStart(t: seq<byte>, a: nat, d: nat)
    requires Terminated(t) && a < |t| && SkipSpace(t, a) == a && ParseItems(t, a, d).Done?
    ensures t[a] != SLASH && t[a] != RBRACKET && a + 1 < |t|
  {
    hide ParseValue, ParseItems, SkipSpace;
    ItemsStep(t, a, d);
    ValueStart(t, a, d);
    ValueNoBracket(t, a, d);
  }

  lemma ValueNoBracket(t: seq<byte>, i: nat, d: nat)
    requires Terminated(t) && i < |t| && ParseValue(t, i, d).Done?
    ensures t[i] != RBRACKET
  {
    hide ParseString, ParseNumber, ParseArray, ParseObject;
    if t[i] == RBRACKET {
      NoKeyword(t, i);
    }
  }

  lemma {:induction false} ItemsKept(t: seq<byte>, u: seq<byte>, i: nat, d: nat)
    requires IsText(t) && Terminated(u) && i < |t| && ParseItems(t, i, d).Done?
    ensures Reads(t, u, i, ParseItems(t, i, d), ParseItems(u, Place(t, u, i), d))
    decreases |t| - i, 2
  {
    hide ParseItems, ParseValue, Place, Left, Maps, SkipSpace;
    ItemsStep(t, i, d);
    var a := SkipSpace(t, i);
    var v := ParseValue(t, a, d);
    ValueStart(t, a, d);
    Blanks(t, u, i);
    var c := SkipSpace(t, v.offset);
    FollowsApart(t, v.offset);
    ValueKept(t, u, a, d);
    Blanks(t, u, v.offset);
    Mark(t, u, c);
    if t[c] == COMMA {
      ItemsKept(t, u, c + 1, d);
    }
    if Maps(t, u, i) {
      ItemsStep(u, Place(t, u, i), d);
    }
  }

  lemma {:induction false} ObjectKept(t: seq<byte>, u: seq<byte>, i: nat, d: nat)
    requires IsText(t) && Terminated(u) && i + 1 < |t| && t[i] == LBRACE && ParseValue(t, i, d).Done?
    ensures Reads(t, u, i, ParseValue(t, i, d), ParseValue(u, Place(t, u, i), d))
    decreases |t| - i, 0
  {
    hide ParseMembers, ParseObject, ParseValue, Place, Left, Maps, SkipSpace;
    ValueIsObject(t, i, d);
    ObjectStep(t, i, d);
    var a := SkipSpace(t, i + 1);
    Mark(t, u, i);
    if t[a] == RBRACE && a + 1 < |t| {
      Blanks(t, u, i + 1);
      Mark(t, u, a);
    } else {
      SkipSpaceStops(t, a, a);
      MembersStart(t, a, d + 1);
      Blanks(t, u, i + 1);
      MembersKept(t, u, a, d + 1);
    }
    if Maps(t, u, i) {
      ValueIsObject(u, Place(t, u, i), d);
      ObjectStep(u, Place(t, u, i), d);
    }
  }

  lemma StringStart(t: seq<byte>, i: nat)
    requires Terminated(t) && i < |t| && ParseString(t, i).Done?
    ensures t[i] == QUOTE
  {
  }

  lemma MembersStart(t: seq<byte>, a: nat, d: nat)
    requires Terminated(t) && a < |t| && SkipSpace(t, a) == a && ParseMembers(t, a, d).Done?
    ensures t[a] == QUOTE
  {
    hide ParseMember, ParseMembers, ParseValue, ParseString, SkipSpace;
    MembersStep(t, a, d);
    MemberStep(t, a, d);
    StringStart(t, a);
  }

  lemma {:induction false} MemberKept(t: seq<byte>, u: seq<byte>, i: nat, d: nat)
    requires IsText(t) && Terminated(u) && i < |t|
    requires ParseMember(t, i, d).Done? && Apart(t, ParseMember(t, i, d).offset)
    ensures Reads(t, u, i, ParseMember(t, i, d), ParseMember(u, Place(t, u, i), d))
    decreases |t| - i, 2
  {
    hide ParseMember, ParseString, ParseValue, Place, Left, Maps, SkipSpace, Apart;
    MemberStep(t, i, d);
    var a := SkipSpace(t, i);
    var key := ParseString(t, a);
    StringStart(t, a);
    Blanks(t, u, i);
    StringKept(t, u, a);
    var c := SkipSpace(t, key.offset);
    Blanks(t, u, key.offset);
    Mark(t, u, c);
    var b := SkipSpace(t, c + 1);
    ValueStart(t, b, d);
    Blanks(t, u, c + 1);
    ValueKept(t, u, b, d);
    if Maps(t, u, i) {
      MemberStep(u, Place(t, u, i), d);
    }
  }

  lemma {:induction false} MembersKept(t: seq<byte>, u: seq<byte>, i: nat, d: nat)
    requires IsText(t) && Terminated(u) && i < |t| && ParseMembers(t, i, d).Done?
    ensures Reads(t, u, i, ParseMembers(t, i, d), ParseMembers(u, Place(t, u, i), d))
    decreases |t| - i, 3
  {
    hide ParseMember, ParseMembers, Place, Left, Maps, SkipSpace;
    MembersStep(t, i, d);
    var m := ParseMember(t, i, d);
    var c := SkipSpace(t, m.offset);
    FollowsApart(t, m.offset);
    MemberKept(t, u, i, d);
    Blanks(t, u, m.offset);
    Mark(t, u, c);
    if t[c] == COMMA {
      MembersKept(t, u, c + 1, d);
    }
    if Maps(t, u, i) {
      MembersStep(u, Place(t, u, i), d);
    }
  }

  // ---------------------------------------------------------------- whole texts

  /** The whole of an accepted text lies between the mark it may begin with and the terminator. */
  lemma TextEnds(t: seq<byte>)
    requires IsText(t) && ParseText(t, true).0.Some?
    ensures var start := SkipSpace(t, SkipMark(t)); var v := ParseValue(t, start, 0);
      v.Done? && Follows(t, v.offset) && SkipSpace(t, v.offset) == |t| - 1
      && ParseText(t, true) == (Some(v.value), |t| - 1)
  {
    hide ParseValue, SkipSpace;
    var v := ParseValue(t, SkipSpace(t, SkipMark(t)), 0);
    NoOtherNul(t);
  }

  lemma NoOtherNul(t: seq<byte>)
    requires IsText(t)
    ensures forall k :: 0 <= k < |t| - 1 ==> t[k] != NUL
  {
    assert forall k :: 0 <= k < |t| - 1 ==> t[k] == t[..|t| - 1][k];
  }

  lemma MarkKept(t: seq<byte>, u: seq<byte>)
    requires IsText(t) && Terminated(u) && SkipMark(t) == 3
    ensures Leads(t, u, 0, 3)
    ensures Maps(t, u, 0) ==> Place(t, u, 3) == Place(t, u, 0) + 3 && At(u, Place(t, u, 0), t[..3])
  {
    hide Left, Place, Maps;
    assert t[0..3] == t[..3];
    PlainRun(t, u, 0, 3);
  }

  lemma SameMark(t: seq<byte>, u: seq<byte>)
    requires IsText(t) && Terminated(u)
    requires SkipMark(t) == 3 ==> At(u, 0, t[..3]) && |u| > 4
    requires SkipMark(t) == 0 ==> u[0] < 128
    ensures SkipMark(u) == SkipMark(t)
  {
    if SkipMark(t) == 0 {
      assert |u| > 4 ==> u[..3][0] == u[0];
    }
  }

  /** Where the text's value stands in what is left of the text: the same kind of value, at the same depth. */
  lemma StartFound(t: seq<byte>, u: seq<byte>)
    requires IsText(t) && Terminated(u) && ParseText(t, false).0.Some?
    ensures var start := SkipSpace(t, SkipMark(t)); var v := ParseValue(t, start, 0);
      && v.Done? && start + 1 < |t| && t[start] != SLASH
      && Leads(t, u, 0, start)
      && (Maps(t, u, 0) && Place(t, u, 0) == 0 ==>
           SkipSpace(u, SkipMark(u)) == Place(t, u, start) && u[Place(t, u, start)] == t[start])
  {
    hide ParseValue, Place, Left, Maps, SkipSpace;
    var m := SkipMark(t);
    var start := SkipSpace(t, m);
    ValueStart(t, start, 0);
    if m == 3 {
      MarkKept(t, u);
    }
    Blanks(t, u, m);
    if Maps(t, u, 0) && Place(t, u, 0) == 0 {
      SameMark(t, u);
    }
  }

  /** The text from start to end is accepted; everything before and behind is skipped. */
  lemma ValueFound(t: seq<byte>, u: seq<byte>)
    requires IsText(t) && Terminated(u) && ParseText(t, true).0.Some?
    ensures Left(t, 0).Some?
    ensures Maps(t, u, 0) && Place(t, u, 0) == 0 ==> ParseText(u, true).0 == ParseText(t, true).0
  {
    hide ParseValue, SkipMark, Place, Left, Maps, SkipSpace, Apart;
    TextEnds(t);
    StartFound(t, u);
    var start := SkipSpace(t, SkipMark(t));
    var v := ParseValue(t, start, 0);
    FollowsApart(t, v.offset);
    ValueKept(t, u, start, 0);
    Blanks(t, u, v.offset);
    LastLeft(t, u);
  }

  lemma LastLeft(t: seq<byte>, u: seq<byte>)
    requires IsText(t) && u != []
    ensures Left(t, |t| - 1) == Some([]) && Place(t, u, |t| - 1) == |u| - 1
  {
    assert t[|t| - 1..|t| - 1] == [];
    NothingLeft();
  }

  /** Every text that is accepted as a whole is minified to one that is accepted with the same tree. */
  lemma MinifyKeepsMeaning(text: seq<byte>)
    requires NulFree(text) && ParseText(text + [NUL], true).0.Some?
    ensures M.Minified(text).Some?
    ensures ParseText(M.Minified(text).value + [NUL], true).0 == ParseText(text + [NUL], true).0
  {
    hide ParseText, M.Minified;
    var t := text + [NUL];
    assert t[..|t| - 1] == text && t[0..|t| - 1] == text;
    ValueFound(t, [NUL]);
    var u := M.Minified(text).value + [NUL];
    assert u[0..|u|] == u;
    ValueFound(t, u);
  }

  // ---------------------------------------------------------------- without the end check

  /** A numeral is read from the bytes behind it alone. */
  lemma NumberShift(u: seq<byte>, p: nat, w: seq<byte>)
    requires Terminated(u) && Terminated(w) && p < |u| && u[p..] == w
    ensures ParseNumber(u, p).Done? <==> ParseNumber(w, 0).Done?
    ensures ParseNumber(u, p).Done? ==> ParseNumber(u, p).value == ParseNumber(w, 0).value
  {
    hide Strtod;
    var n := CopyEnd(w, 0, 0);
    forall k | 0 <= k < |w| ensures u[p + k] == w[k] {
      assert u[p..][k] == u[p + k];
    }
    CopyShift(u, p, w, 0);
    assert u[p..p + n] == w[0..n];
  }

  lemma {:induction false} CopyShift(u: seq<byte>, p: nat, w: seq<byte>, n: nat)
    requires p < |u| && u[p..] == w && n <= NUMERAL_LIMIT && n <= |w|
    ensures CopyEnd(u, p, n) == CopyEnd(w, 0, n)
    decreases NUMERAL_LIMIT - n
  {
    assert n < |w| ==> u[p..][n] == u[p + n];
    if n < NUMERAL_LIMIT && n < |w| && IsNumeral(w[n]) {
      CopyShift(u, p, w, n + 1);
    }
  }

  /** The number the parser reads at a position, read again from what is left of the text there. */
  ghost predicate ReadsAlike(t: seq<byte>, i: nat)
    requires IsText(t) && i < |t| && ParseNumber(t, i).Done? && Left(t, i).Some?
  {
    var again := ParseNumber(Left(t, i).value + [NUL], 0);
    again.Done? && again.value == ParseNumber(t, i).value
  }

  lemma ApartReadsAlike(t: seq<byte>, i: nat)
    requires IsText(t) && i < |t| && ParseNumber(t, i).Done? && Left(t, i).Some?
    ensures Apart(t, ParseNumber(t, i).offset) ==> ReadsAlike(t, i)
  {
    hide ParseNumber, M.Minified, Apart;
    if Apart(t, ParseNumber(t, i).offset) {
      var w := Left(t, i).value + [NUL];
      assert w[0..|w|] == w;
      NumberKept(t, w, i);
    }
  }

  lemma NumberValue(t: seq<byte>, i: nat, d: nat)
    requires Terminated(t) && i < |t| && ParseValue(t, i, d).Done?
    ensures ParseValue(t, i, d).value.Num? <==> StartsNumber(t[i])
    ensures StartsNumber(t[i]) ==> ParseValue(t, i, d) == ParseNumber(t, i)
  {
    hide ParseString, ParseNumber, ParseArray, ParseObject, SkipSpace;
    StartsWithFirst(t, i, NULL_TEXT);
    StartsWithFirst(t, i, FALSE_TEXT);
    StartsWithFirst(t, i, TRUE_TEXT);
    if t[i] == LBRACKET {
      ArrayValue(t, i, d);
    } else if t[i] == LBRACE {
      ObjectValue(t, i, d);
    } else if StartsNumber(t[i]) {
      NumberIsNum(t, i);
    }
  }

  lemma ArrayValue(t: seq<byte>, i: nat, d: nat)
    requires Terminated(t) && i < |t| && t[i] == LBRACKET && ParseArray(t, i, d).Done?
    ensures ParseArray(t, i, d).value.Arr?
  {
    hide ParseItems, SkipSpace;
  }

  lemma ObjectValue(t: seq<byte>, i: nat, d: nat)
    requires Terminated(t) && i < |t| && t[i] == LBRACE && ParseObject(t, i, d).Done?
    ensures ParseObject(t, i, d).value.Obj?
  {
    hide ParseMembers, SkipSpace;
  }

  lemma NumberIsNum(t: seq<byte>, i: nat)
    requires Terminated(t) && i < |t| && ParseNumber(t, i).Done?
    ensures ParseNumber(t, i).value.Num?
  {
    hide Strtod, CopyEnd;
  }

  /** Without the end check: what is no number is found again, a number if it is read alike. */
  lemma ValueFoundAgain(t: seq<byte>, u: seq<byte>)
    requires IsText(t) && Terminated(u) && ParseText(t, false).0.Some? && Maps(t, u, 0) && Place(t, u, 0) == 0
    ensures var start := SkipSpace(t, SkipMark(t)); var j := ParseText(t, false).0.value;
      && (j.Num? ==> ParseNumber(t, start).Done? && Left(t, start).Some?)
      && (ParseText(u, false).0 == Some(j) <==> !j.Num? || ReadsAlike(t, start))
  {
    hide ParseValue, ParseNumber, SkipMark, Place, Left, SkipSpace, At, ReadsAlike;
    StartFound(t, u);
    var start := SkipSpace(t, SkipMark(t));
    var p, v := Place(t, u, start), ParseValue(t, start, 0);
    NumberValue(t, start, 0);
    if StartsNumber(t[start]) {
      ValueIsNumber(u, p, 0);
      NumberAgain(t, u, start);
    } else {
      ValueKept(t, u, start, 0);
    }
  }

  lemma NumberAgain(t: seq<byte>, u: seq<byte>, i: nat)
    requires IsText(t) && Terminated(u) && i < |t| && ParseNumber(t, i).Done? && Maps(t, u, i)
    ensures Left(t, i).Some? && Place(t, u, i) < |u|
    ensures var r := ParseNumber(u, Place(t, u, i));
      ReadsAlike(t, i) <==> r.Done? && r.value == ParseNumber(t, i).value
  {
    hide ParseNumber, M.Minified;
    var w := Left(t, i).value + [NUL];
    assert u[Place(t, u, i)..] == w;
    NumberShift(u, Place(t, u, i), w);
  }

  /**
   A text that is accepted with anything behind its value, and that minifying does not leave, is minified to a
   text with the same tree if and only if the value is no number, or a number that is read alike from what is
   left of the text there; it is when the first byte that is left behind it could not continue a numeral.
   */
  lemma MinifyKeepsValue(text: seq<byte>)
    requires NulFree(text) && ParseText(text + [NUL], false).0.Some? && M.Minified(text).Some?
    ensures var t := text + [NUL]; var start := SkipSpace(t, SkipMark(t)); var j := ParseText(t, false).0.value;
      && IsText(t)
      && (j.Num? ==> ParseNumber(t, start).Done? && Left(t, start).Some?)
      && (ParseText(M.Minified(text).value + [NUL], false).0 == Some(j) <==> !j.Num? || ReadsAlike(t, start))
      && (j.Num? && Apart(t, ParseNumber(t, start).offset) ==> ReadsAlike(t, start))
  {
    hide ParseText, ParseNumber, M.Minified, SkipSpace, SkipMark, ReadsAlike, Apart;
    var t := text + [NUL];
    assert t[..|t| - 1] == text && t[0..|t| - 1] == text;
    var u := M.Minified(text).value + [NUL];
    assert u[0..|u|] == u;
    ValueFoundAgain(t, u);
    if ParseText(t, false).0.value.Num? {
      ApartReadsAlike(t, SkipSpace(t, SkipMark(t)));
    }
  }

  /** A number that is not read alike: two numbers grow together. */
  lemma NumbersGrowTogether()
    ensures ParseText([49, 32, 50, NUL], false).0 == Some(Num(1.0))
    ensures M.Minified([49, 32, 50]) == Some([49, 50]) && ParseText([49, 50, NUL], false).0 == Some(Num(12.0))
  {
    OneNumber([49, 32, 50, NUL], 1);
    OneNumber([49, 50, NUL], 12);
    M.PlainStays([49], [32, 50]);
    M.SpacesGo([32], [50]);
    M.PlainStays([50], []);
    NothingLeft();
    assert [49, 32, 50] == [49] + [32, 50] && [32, 50] == [32] + [50] && [50] == [50] + [];
    assert [49] + ([50] + []) == [49, 50];
  }

  lemma OneNumber(t: seq<byte>, n: nat)
    requires Terminated(t) && |IntText(n)| < |t| <= 4 && t[..|IntText(n)|] == IntText(n) && !IsNumeral(t[|IntText(n)|])
    ensures ParseText(t, false).0 == Some(Num(n as real))
  {
    hide Strtod, CopyEnd, IntText;
    var s := IntText(n);
    assert forall k :: 0 <= k < |s| ==> t[k] == t[..|s|][k];
    CopiesText(t, 0, 0, |s|);
    assert t[0..|s|] == s;
    StrtodOfIntText(n);
    ValueIsNumber(t, 0, 0);
  }
}
