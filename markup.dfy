/** The client's inline markup: formatMessage turns `**bold**`, `*italic*`
    and `__underline__` spans into ANSI escape sequences, and the
    visibleLength helper of the renderer counts the characters that an ANSI
    terminal actually displays. */
module Markup {
  import opened Text

  const Esc: char := '\U{1B}'
  const Reset: string := "\U{1B}[0m"
  const Bold: string := "\U{1B}[1m"
  const Italic: string := "\U{1B}[3m"
  const Underline: string := "\U{1B}[4m"

  predicate NoChar(s: string, c: char)
  {
    forall j :: 0 <= j < |s| ==> s[j] != c
  }

  /** One iteration of the formatting loop at `pos`: the text it appends and
      the position it moves to.  The three marker tests form an else-if
      chain, so a `**` without a closing `**` is not retried as an italic
      opener: its first `*` is copied and the loop moves on by one. */
  function Step(c: string, pos: nat): (r: (string, nat))
    requires pos < |c|
    ensures pos < r.1 <= |c|
  {
    if pos + 1 < |c| && c[pos] == '*' && c[pos + 1] == '*' then
      match Find(c, "**", pos + 2)
      case Some(end) => (Bold + c[pos + 2..end] + Reset, end + 2)
      case None => ([c[pos]], pos + 1)
    else if c[pos] == '*' then
      match FindChar(c, '*', pos + 1)
      case Some(end) => (Italic + c[pos + 1..end] + Reset, end + 1)
      case None => ([c[pos]], pos + 1)
    else if pos + 1 < |c| && c[pos] == '_' && c[pos + 1] == '_' then
      match Find(c, "__", pos + 2)
      case Some(end) => (Underline + c[pos + 2..end] + Reset, end + 2)
      case None => ([c[pos]], pos + 1)
    else
      ([c[pos]], pos + 1)
  }

  /** What the formatting loop appends from `pos` to the end of `c`. */
  function FormatFrom(c: string, pos: nat): string
    requires pos <= |c|
    decreases |c| - pos
  {
    if pos == |c| then "" else Step(c, pos).0 + FormatFrom(c, Step(c, pos).1)
  }

  function Formatted(c: string): string
  {
    FormatFrom(c, 0)
  }

  /** formatMessage: the accumulating loop over `pos`, one Step per turn. */
  method FormatMessage(content: string) returns (result: string)
    ensures result == Formatted(content)
  {
    result := "";
    var pos := 0;
    while pos < |content|
      invariant pos <= |content|
      invariant result + FormatFrom(content, pos) == Formatted(content)
      decreases |content| - pos
    {
      var piece, next := FormatTurn(content, pos);
      Advance(content, pos, result);
      result := result + piece;
      pos := next;
    }
  }

  /** The body of the formatting loop at `pos`: a closed marker pair
      appends its span and jumps past the closer (the source's `continue`);
      otherwise one character is copied. */
  method FormatTurn(content: string, pos: nat) returns (piece: string, next: nat)
    requires pos < |content|
    ensures (piece, next) == Step(content, pos)
  {
    if pos + 1 < |content| && content[pos] == '*' && content[pos + 1] == '*' {
      var end := Find(content, "**", pos + 2);
      if end.Some? {
        return Bold + content[pos + 2..end.value] + Reset, end.value + 2;
      }
    } else if content[pos] == '*' {
      var end := FindChar(content, '*', pos + 1);
      if end.Some? {
        return Italic + content[pos + 1..end.value] + Reset, end.value + 1;
      }
    } else if pos + 1 < |content| && content[pos] == '_' && content[pos + 1] == '_' {
      var end := Find(content, "__", pos + 2);
      if end.Some? {
        return Underline + content[pos + 2..end.value] + Reset, end.value + 2;
      }
    }
    piece, next := [content[pos]], pos + 1;
  }

  /** The loop's bookkeeping: the text from `pos` is one step's piece
      followed by the text from where that step lands. */
  lemma FormatUnfold(c: string, pos: nat)
    requires pos < |c|
    ensures FormatFrom(c, pos) == Step(c, pos).0 + FormatFrom(c, Step(c, pos).1)
  {
  }

  /** Appending one step's piece keeps the loop's accumulator in line. */
  lemma Advance(c: string, pos: nat, acc: string)
    requires pos < |c| && acc + FormatFrom(c, pos) == Formatted(c)
    ensures (acc + Step(c, pos).0) + FormatFrom(c, Step(c, pos).1) == Formatted(c)
  {
    FormatUnfold(c, pos);
  }

  /** Text with no `*` and no `_` comes back unchanged. */
  lemma {:induction false} FormatPlain(c: string, pos: nat)
    requires pos <= |c| && NoChar(c, '*') && NoChar(c, '_')
    ensures FormatFrom(c, pos) == c[pos..]
    decreases |c| - pos
  {
    if pos < |c| {
      assert Step(c, pos) == ([c[pos]], pos + 1);
      FormatPlain(c, pos + 1);
      assert c[pos..] == [c[pos]] + c[pos + 1..];
    }
  }

  /** `**x**` with no `*` inside becomes a bold span. */
  lemma FormatBold(x: string)
    requires NoChar(x, '*')
    ensures Formatted("**" + x + "**") == Bold + x + Reset
  {
    var c := "**" + x + "**";
    var k := 2 + |x|;
    assert OccursAt(c, "**", k) by { assert c[k..k + 2] == "**"; }
    forall j | 2 <= j < k ensures !OccursAt(c, "**", j) {
      assert c[j] == x[j - 2];
    }
    FindIs(c, "**", 2, k);
    assert c[2..k] == x;
    assert Step(c, 0) == (Bold + x + Reset, |c|);
    FormatUnfold(c, 0);
    assert FormatFrom(c, |c|) == "";
  }

  /** `*x*` with a non-empty x free of `*` becomes an italic span. */
  lemma FormatItalic(x: string)
    requires |x| > 0 && NoChar(x, '*')
    ensures Formatted("*" + x + "*") == Italic + x + Reset
  {
    var c := "*" + x + "*";
    var k := 1 + |x|;
    assert c[1] == x[0];
    forall j | 1 <= j < k ensures c[j] != '*' {
      assert c[j] == x[j - 1];
    }
    FindCharIs(c, '*', 1, k);
    assert c[1..k] == x;
    assert Step(c, 0) == (Italic + x + Reset, |c|);
    FormatUnfold(c, 0);
    assert FormatFrom(c, |c|) == "";
  }

  /** `__x__` with no `_` inside becomes an underlined span. */
  lemma FormatUnderline(x: string)
    requires NoChar(x, '_')
    ensures Formatted("__" + x + "__") == Underline + x + Reset
  {
    var c := "__" + x + "__";
    var k := 2 + |x|;
    assert OccursAt(c, "__", k) by { assert c[k..k + 2] == "__"; }
    forall j | 2 <= j < k ensures !OccursAt(c, "__", j) {
      assert c[j] == x[j - 2];
    }
    FindIs(c, "__", 2, k);
    assert c[2..k] == x;
    assert Step(c, 0) == (Underline + x + Reset, |c|);
    FormatUnfold(c, 0);
    assert FormatFrom(c, |c|) == "";
  }

  /** A `*` with no later `*` is copied as it is. */
  lemma UnmatchedStar(c: string, pos: nat)
    requires pos < |c| && c[pos] == '*'
    requires forall j :: pos < j < |c| ==> c[j] != '*'
    ensures Step(c, pos) == ("*", pos + 1)
  {
    assert FindChar(c, '*', pos + 1).None?;
  }

  /** A `**` with no later `**` copies only its first `*`; the second one is
      then looked at again as a possible italic opener. */
  lemma UnclosedDoubleStar(c: string, pos: nat)
    requires pos + 1 < |c| && c[pos] == '*' && c[pos + 1] == '*'
    requires forall j :: pos + 2 <= j ==> !OccursAt(c, "**", j)
    ensures Step(c, pos) == ("*", pos + 1)
  {
  }

  /** An `_` that does not open a closed `__` pair is copied as it is:
      either a lone `_`, or a `__` with no `__` after it. */
  lemma UnmatchedUnderscore(c: string, pos: nat)
    requires pos < |c| && c[pos] == '_'
    requires !(pos + 1 < |c| && c[pos + 1] == '_') || Find(c, "__", pos + 2).None?
    ensures Step(c, pos) == ("_", pos + 1)
  {
  }

  /** The else-if chain made concrete: `**a*` keeps one literal `*` and
      italicises `a`, instead of copying the whole text. */
  lemma UnclosedBoldFallsThrough()
    ensures Formatted("**a*") == "*" + Italic + "a" + Reset
  {
    var c := "**a*";
    assert c[2..4] != "**" by { assert c[2..4][0] == 'a'; }
    assert Find(c, "**", 2).None?;
    assert Step(c, 0) == ("*", 1);
    FindCharIs(c, '*', 2, 3);
    assert c[2..3] == "a";
    assert Step(c, 1) == (Italic + "a" + Reset, 4);
    FormatUnfold(c, 0);
    FormatUnfold(c, 1);
    assert FormatFrom(c, 4) == "";
  }

  // ---------------------------------------------------------------------
  // visibleLength

  /** The characters a terminal shows for `s` when scanning starts inside
      (`inEscape`) or outside an escape sequence: ESC opens a sequence,
      and inside one every character up to and including `m` is hidden. */
  function Visible(s: string, inEscape: bool): string
  {
    if s == [] then []
    else if s[0] == Esc then Visible(s[1..], true)
    else if inEscape then Visible(s[1..], s[0] != 'm')
    else [s[0]] + Visible(s[1..], false)
  }

  /** Whether the scan of `s` ends inside an escape sequence. */
  function EndsInEscape(s: string, inEscape: bool): bool
  {
    if s == [] then inEscape
    else if s[0] == Esc then EndsInEscape(s[1..], true)
    else if inEscape then EndsInEscape(s[1..], s[0] != 'm')
    else EndsInEscape(s[1..], false)
  }

  function VisibleLength(s: string): nat
  {
    |Visible(s, false)|
  }

  /** Scanning a concatenation is scanning the parts in turn. */
  lemma {:induction false} VisibleAppend(a: string, b: string, e: bool)
    ensures Visible(a + b, e) == Visible(a, e) + Visible(b, EndsInEscape(a, e))
    decreases |a|
  {
    if a != [] {
      assert (a + b)[1..] == a[1..] + b;
      assert (a + b)[0] == a[0];
      if a[0] == Esc {
        VisibleAppend(a[1..], b, true);
      } else if e {
        VisibleAppend(a[1..], b, a[0] != 'm');
      } else {
        VisibleAppend(a[1..], b, false);
      }
    } else {
      assert a + b == b;
    }
  }

  /** Text with no ESC outside a sequence is shown as it is. */
  lemma {:induction false} VisiblePlain(s: string)
    requires NoChar(s, Esc)
    ensures Visible(s, false) == s && !EndsInEscape(s, false)
  {
    if s != [] {
      assert NoChar(s[1..], Esc) by {
        forall j | 0 <= j < |s[1..]| ensures s[1..][j] != Esc { assert s[1..][j] == s[j + 1]; }
      }
      VisiblePlain(s[1..]);
      assert s == [s[0]] + s[1..];
    }
  }

  /** An escape code of the form ESC [ digit m hides completely. */
  lemma CodeHidden(code: string)
    requires code in {Reset, Bold, Italic, Underline}
    ensures Visible(code, false) == [] && !EndsInEscape(code, false)
  {
    assert code == [Esc, '[', code[2], 'm'];
    assert code[1..] == ['[', code[2], 'm'] && code[2..] == [code[2], 'm'];
    assert code[3..] == ['m'] && code[4..] == [];
  }

  /** A formatted span shows exactly its inner text. */
  lemma VisibleSpan(code: string, x: string)
    requires code in {Bold, Italic, Underline} && NoChar(x, Esc)
    ensures Visible(code + x + Reset, false) == x
    ensures !EndsInEscape(code + x + Reset, false)
  {
    CodeHidden(code);
    CodeHidden(Reset);
    VisiblePlain(x);
    VisibleAppend(code, x, false);
    VisibleAppend(code + x, Reset, false);
    EndsAppend(code, x, false);
    EndsAppend(code + x, Reset, false);
  }

  lemma {:induction false} EndsAppend(a: string, b: string, e: bool)
    ensures EndsInEscape(a + b, e) == EndsInEscape(b, EndsInEscape(a, e))
    decreases |a|
  {
    if a != [] {
      assert (a + b)[1..] == a[1..] + b;
      assert (a + b)[0] == a[0];
      if a[0] == Esc {
        EndsAppend(a[1..], b, true);
      } else if e {
        EndsAppend(a[1..], b, a[0] != 'm');
      } else {
        EndsAppend(a[1..], b, false);
      }
    } else {
      assert a + b == b;
    }
  }

  /** On text without ESC, formatting never widens what the terminal shows:
      the visible width of the result is at most the raw length. */
  lemma {:induction false} FormattedNarrower(c: string, pos: nat)
    requires pos <= |c| && NoChar(c, Esc)
    ensures |Visible(FormatFrom(c, pos), false)| <= |c| - pos
    ensures !EndsInEscape(FormatFrom(c, pos), false)
    decreases |c| - pos
  {
    if pos < |c| {
      var (piece, next) := Step(c, pos);
      StepVisible(c, pos);
      FormattedNarrower(c, next);
      VisibleAppend(piece, FormatFrom(c, next), false);
      EndsAppend(piece, FormatFrom(c, next), false);
    }
  }

  /** One step shows at most as many characters as it consumes. */
  lemma StepVisible(c: string, pos: nat)
    requires pos < |c| && NoChar(c, Esc)
    ensures |Visible(Step(c, pos).0, false)| <= Step(c, pos).1 - pos
    ensures !EndsInEscape(Step(c, pos).0, false)
  {
    if pos + 1 < |c| && c[pos] == '*' && c[pos + 1] == '*' && Find(c, "**", pos + 2).Some? {
      SliceShown(c, Bold, pos + 2, Find(c, "**", pos + 2).value);
    } else if !(pos + 1 < |c| && c[pos] == '*' && c[pos + 1] == '*') && c[pos] == '*'
              && FindChar(c, '*', pos + 1).Some? {
      SliceShown(c, Italic, pos + 1, FindChar(c, '*', pos + 1).value);
    } else if c[pos] != '*' && pos + 1 < |c| && c[pos] == '_' && c[pos + 1] == '_'
              && Find(c, "__", pos + 2).Some? {
      SliceShown(c, Underline, pos + 2, Find(c, "__", pos + 2).value);
    } else {
      assert Step(c, pos).0 == [c[pos]];
      VisiblePlain([c[pos]]);
    }
  }

  /** A span cut out of ESC-free text shows exactly its characters. */
  lemma SliceShown(c: string, code: string, lo: nat, hi: nat)
    requires lo <= hi <= |c| && NoChar(c, Esc) && code in {Bold, Italic, Underline}
    ensures Visible(code + c[lo..hi] + Reset, false) == c[lo..hi]
    ensures !EndsInEscape(code + c[lo..hi] + Reset, false)
  {
    assert NoChar(c[lo..hi], Esc) by {
      forall j | 0 <= j < hi - lo ensures c[lo..hi][j] != Esc { assert c[lo..hi][j] == c[lo + j]; }
    }
    VisibleSpan(code, c[lo..hi]);
  }

  /** visibleLength: one pass with an in-escape flag. */
  method CountVisible(s: string) returns (len: nat)
    ensures len == VisibleLength(s)
  {
    len := 0;
    var inEscape := false;
    var i := 0;
    while i < |s|
      invariant i <= |s|
      invariant len + |Visible(s[i..], inEscape)| == VisibleLength(s)
    {
      assert s[i..][1..] == s[i + 1..];
      var c := s[i];
      if c == Esc {
        inEscape := true;
      } else if inEscape {
        if c == 'm' {
          inEscape := false;
        }
      } else {
        len := len + 1;
      }
      i := i + 1;
    }
  }
}
