/**
 * hierdoc.py: the outline ("hiertext") parser. Every line is a paragraph
 * whose indentation, in steps of four spaces, gives its level; a line starts a
 * new subtree of the deepest last subtree whose level is lower than its own.
 * A paragraph's text also carries an optional one-character marker, a
 * bracketed tag, a name and the remaining content.
 */
module Hierdoc {
  import opened Wrappers
  import opened Text

  const IndentStep: nat := 4
  const Indent: string := "    "
  /** MARKERS: the standard one-character line markers. */
  const Markers: set<char> := {'*', '-', '+', '>', '&', 'i', '='}
  /** SKIP_MARKERS: the markers of commented-out lines. */
  const SkipMarkers: set<char> := {'0', 'x'}
  const MaxWordsInName: nat := 5


  /** n spaces; none when n is not positive, as Python's ' ' * n. */
  function Spaces(n: int): (r: string)
    ensures |r| == if n > 0 then n else 0
    ensures forall i :: 0 <= i < |r| ==> r[i] == ' '
    decreases n
  {
    if n <= 0 then [] else [' '] + Spaces(n - 1)
  }

  // ---------------------------------------------------------------- lines

  /** The non-empty strings of parts, in order. */
  function NonEmpty(parts: seq<string>): (r: seq<string>)
    ensures |r| <= |parts|
    ensures forall i :: 0 <= i < |r| ==> r[i] != [] && r[i] in parts
  {
    if parts == [] then []
    else if parts[0] == [] then NonEmpty(parts[1..])
    else [parts[0]] + NonEmpty(parts[1..])
  }

  /** A line of text as split_lines yields it: non-empty and free of line breaks. */
  ghost predicate IsLine(s: string) {
    s != [] && '\n' !in s
  }

  /** split_lines on one string: its non-empty '\n'-separated pieces, in order. */
  function SplitLines(text: string): (r: seq<string>)
    ensures forall i :: 0 <= i < |r| ==> IsLine(r[i])
  {
    NonEmpty(SplitOn(text, '\n'))
  }

  /** All characters of text other than line breaks, in order. */
  function DropBreaks(text: string): string {
    if text == [] then [] else (if text[0] == '\n' then [] else [text[0]]) + DropBreaks(text[1..])
  }

  /** The strings of parts, one after another. */
  function Concat(parts: seq<string>): string {
    if parts == [] then [] else parts[0] + Concat(parts[1..])
  }

  /** Nothing but the line breaks is lost: the lines laid end to end are the text without its breaks. */
  lemma {:induction false} SplitLinesKeepsText(text: string)
    ensures Concat(SplitLines(text)) == DropBreaks(text)
  {
    NonEmptyConcat(SplitOn(text, '\n'));
    JoinDropBreaks(SplitOn(text, '\n'));
  }

  lemma {:induction false} NonEmptyConcat(parts: seq<string>)
    ensures Concat(NonEmpty(parts)) == Concat(parts)
  {
    if parts != [] {
      NonEmptyConcat(parts[1..]);
    }
  }

  lemma {:induction false} DropBreaksAppend(a: string, b: string)
    ensures DropBreaks(a + b) == DropBreaks(a) + DropBreaks(b)
    decreases |a|
  {
    if a != [] {
      assert (a + b)[1..] == a[1..] + b;
      DropBreaksAppend(a[1..], b);
    } else {
      assert a + b == b;
    }
  }

  lemma {:induction false} DropBreaksFree(s: string)
    requires '\n' !in s
    ensures DropBreaks(s) == s
    decreases |s|
  {
    if s != [] {
      DropBreaksFree(s[1..]);
    }
  }

  lemma {:induction false} JoinDropBreaks(parts: seq<string>)
    requires forall i :: 0 <= i < |parts| ==> '\n' !in parts[i]
    ensures DropBreaks(Join(parts, '\n')) == Concat(parts)
    decreases |parts|
  {
    if |parts| == 1 {
      DropBreaksFree(parts[0]);
      assert Concat(parts) == parts[0] + Concat([]);
    } else if |parts| > 1 {
      JoinDropBreaks(parts[1..]);
      DropBreaksFree(parts[0]);
      DropBreaksAppend(parts[0] + ['\n'], Join(parts[1..], '\n'));
      DropBreaksAppend(parts[0], ['\n']);
    }
  }

  /** Text written as lines joined by '\n' splits back into those lines. */
  lemma {:induction false} SplitJoinedLines(lines: seq<string>)
    requires |lines| > 0 && forall i :: 0 <= i < |lines| ==> IsLine(lines[i])
    ensures SplitLines(Join(lines, '\n')) == lines
  {
    SplitJoin(lines, '\n');
    NonEmptyOfLines(lines);
  }

  lemma {:induction false} NonEmptyOfLines(lines: seq<string>)
    requires forall i :: 0 <= i < |lines| ==> lines[i] != []
    ensures NonEmpty(lines) == lines
  {
    if lines != [] {
      NonEmptyOfLines(lines[1..]);
    }
  }

  /** split_lines on a list of strings: the lines of each string, one list after another. */
  function SplitAll(texts: seq<string>): (r: seq<string>)
    ensures forall i :: 0 <= i < |r| ==> IsLine(r[i])
  {
    if texts == [] then [] else SplitLines(texts[0]) + SplitAll(texts[1..])
  }

  /** Lines already split come back unchanged from a second split_lines. */
  lemma {:induction false} SplitAllOfLines(lines: seq<string>)
    requires forall i :: 0 <= i < |lines| ==> IsLine(lines[i])
    ensures SplitAll(lines) == lines
  {
    if lines != [] {
      SplitFree(lines[0], '\n');
      assert SplitLines(lines[0]) == [lines[0]];
      SplitAllOfLines(lines[1..]);
    }
  }

  // ---------------------------------------------------------------- indentation

  /** str_has_indent: longer than one indent step and starting with four spaces. */
  predicate HasIndent(text: string) {
    |text| > IndentStep && text[..IndentStep] == Indent
  }

  /**
   * What adjust_level's loop computes: the text with its leading whole
   * indent steps removed, and how many it removed. The loop itself is
   * Paragraph.AdjustLevel.
   */
  function Adjust(text: string): (r: (string, nat))
    ensures !HasIndent(r.0)
    ensures text != [] ==> r.0 != []
    ensures IsLine(text) ==> IsLine(r.0)
    decreases |text|
  {
    if HasIndent(text) then
      var a := Adjust(text[IndentStep..]);
      assert IsLine(text) ==> IsLine(text[IndentStep..]) by {
        if IsLine(text) {
          forall k | 0 <= k < |text| - IndentStep ensures text[IndentStep..][k] != '\n' {
            assert text[IndentStep..][k] == text[IndentStep + k];
          }
        }
      }
      (a.0, a.1 + 1)
    else
      (text, 0)
  }

  /** Nothing but whole indent steps is removed: they and the adjusted text make up the text again. */
  lemma {:induction false} AdjustSplits(text: string)
    ensures Spaces(IndentStep * Adjust(text).1) + Adjust(text).0 == text
    decreases |text|
  {
    if HasIndent(text) {
      var a := Adjust(text[IndentStep..]);
      AdjustSplits(text[IndentStep..]);
      SpacesAdd(IndentStep, IndentStep * a.1);
      assert IndentStep * (a.1 + 1) == IndentStep + IndentStep * a.1;
      assert Spaces(IndentStep) == Indent;
      assert text == Indent + text[IndentStep..];
    }
  }

  lemma {:induction false} SpacesAdd(m: nat, n: nat)
    ensures Spaces(m + n) == Spaces(m) + Spaces(n)
    decreases m
  {
    if m > 0 {
      SpacesAdd(m - 1, n);
    }
  }

  /** An adjusted text has no indent left, so adjusting it again changes nothing. */
  lemma AdjustIdempotent(text: string)
    ensures Adjust(Adjust(text).0) == (Adjust(text).0, 0)
  {
  }

  // ---------------------------------------------------------------- paragraph text

  /** get_mark: the first character, when the text is longer than two and its second character is a space. */
  function MarkOf(text: string, standardOnly: bool): (r: Option<char>)
    ensures r.Some? <==> |text| > 2 && text[1] == ' ' && (text[0] in Markers || text[0] in SkipMarkers || !standardOnly)
    ensures r.Some? ==> r.value == text[0]
  {
    if |text| > 2 && text[1] == ' ' && (text[0] in Markers || text[0] in SkipMarkers || !standardOnly) then Some(text[0])
    else None
  }

  /** get_text_without_marks: two characters fewer exactly when there is a mark. */
  function WithoutMarks(text: string): (r: string)
    ensures MarkOf(text, true).Some? ==> [text[0], ' '] + r == text
    ensures MarkOf(text, true).None? ==> r == text
  {
    if MarkOf(text, true).Some? then text[2..] else text
  }

  /**
   * get_tag: the lower-cased token between a leading '[' and the first "] "
   * (a space is appended before the search), provided that "] " starts after
   * position 2. Spaces inside the tag are kept.
   */
  function TagOf(text: string): (r: Option<string>)
    ensures r.Some? ==> |r.value| >= 2
    ensures r.Some? <==> WithoutMarks(text) != [] && WithoutMarks(text)[0] == '[' && Find(WithoutMarks(text) + " ", "] ") > 2
  {
    var t := WithoutMarks(text) + " ";
    if t[0] == '[' then
      var pos := Find(t, "] ");
      if pos > 2 then Some(Lower(t[1..pos])) else None
    else None
  }

  /** get_text_without_marks_and_tags: the text after the tag's brackets and the space that follows them. */
  function WithoutTags(text: string): (r: string)
    ensures TagOf(text).Some? ==> r == Drop(WithoutMarks(text), |TagOf(text).value| + 3)
    ensures TagOf(text).None? ==> r == WithoutMarks(text)
  {
    var tag := TagOf(text);
    if tag.Some? && tag.value != [] then Drop(WithoutMarks(text), |tag.value| + 3)
    else WithoutMarks(text)
  }

  /**
   * A tag is read from its own brackets: the text without marks is '[', the
   * raw token, and "] " followed by the tag-stripped text, or "[", the token
   * and "]" with nothing left after it.
   */
  lemma TagSplitsText(text: string)
    requires TagOf(text).Some?
    ensures exists raw, rest ::
      |raw| >= 2 && TagOf(text).value == Lower(raw) && rest == WithoutTags(text) &&
      (WithoutMarks(text) == ['['] + raw + "] " + rest || (WithoutMarks(text) == ['['] + raw + "]" && rest == []))
  {
    var w := WithoutMarks(text);
    var t := w + " ";
    var pos := Find(t, "] ");
    var raw := t[1..pos];
    assert t[pos..pos + 2] == "] ";
    assert raw == w[1..pos];
    assert w[..pos] == ['['] + raw;
    var rest := WithoutTags(text);
    assert |TagOf(text).value| == |raw|;
    if pos + 2 <= |w| {
      assert w[..pos + 2] == ['['] + raw + "] ";
      assert w == w[..pos + 2] + w[pos + 2..];
      assert w == ['['] + raw + "] " + rest;
    } else {
      assert w[pos] == t[pos] == ']';
      assert w == w[..pos] + [w[pos]];
      assert w == ['['] + raw + "]";
      assert rest == [];
    }
    assert |raw| >= 2 && TagOf(text).value == Lower(raw) && rest == WithoutTags(text) &&
      (WithoutMarks(text) == ['['] + raw + "] " + rest || (WithoutMarks(text) == ['['] + raw + "]" && rest == []));
  }


  // ---------------------------------------------------------------- names

  /** The 66 letters of the Russian alphabet, upper and lower case: the letters transliterate replaces. */
  predicate IsRussianLetter(c: char) {
    ('А' <= c <= 'я') || c == 'ё' || c == 'Ё'
  }

  /** One character through transliterate's table: each Russian letter becomes a Latin letter or '_'. */
  function TranslitChar(c: char): (r: char)
    ensures IsRussianLetter(c) ==> ('a' <= r <= 'z') || ('A' <= r <= 'Z') || r == '_'
    ensures !IsRussianLetter(c) ==> r == c
    ensures !('A' <= c <= 'Z') && !('А' <= c <= 'Я') && c != 'Ё' ==> !('A' <= r <= 'Z')
  {
    match c
    case 'а' => 'a' case 'б' => 'b' case 'в' => 'v' case 'г' => 'g' case 'д' => 'd' case 'е' => 'e'
    case 'ё' => 'e' case 'ж' => 'j' case 'з' => 'z' case 'и' => 'i' case 'й' => 'j' case 'к' => 'k'
    case 'л' => 'l' case 'м' => 'm' case 'н' => 'n' case 'о' => 'o' case 'п' => 'p' case 'р' => 'r'
    case 'с' => 's' case 'т' => 't' case 'у' => 'u' case 'ф' => 'f' case 'х' => 'h' case 'ц' => 'z'
    case 'ч' => 'c' case 'ш' => 's' case 'щ' => 's' case 'ъ' => '_' case 'ы' => 'y' case 'ь' => '_'
    case 'э' => 'e' case 'ю' => 'u' case 'я' => 'a' case 'А' => 'A' case 'Б' => 'B' case 'В' => 'V'
    case 'Г' => 'G' case 'Д' => 'D' case 'Е' => 'E' case 'Ё' => 'E' case 'Ж' => 'J' case 'З' => 'Z'
    case 'И' => 'I' case 'Й' => 'J' case 'К' => 'K' case 'Л' => 'L' case 'М' => 'M' case 'Н' => 'N'
    case 'О' => 'O' case 'П' => 'P' case 'Р' => 'R' case 'С' => 'S' case 'Т' => 'T' case 'У' => 'U'
    case 'Ф' => 'F' case 'Х' => 'H' case 'Ц' => 'Z' case 'Ч' => 'C' case 'Ш' => 'S' case 'Щ' => 'S'
    case 'Ъ' => '_' case 'Ы' => 'Y' case 'Ь' => '_' case 'Э' => 'E' case 'Ю' => 'U' case 'Я' => 'A'
    case _ => c
  }

  /** transliterate: length-preserving and character by character, so only Russian letters change and none is left. */
  function Transliterate(text: string): (r: string)
    ensures |r| == |text|
    ensures forall i :: 0 <= i < |text| ==> r[i] == TranslitChar(text[i])
    ensures forall i :: 0 <= i < |r| ==> !IsRussianLetter(r[i])
  {
    if text == [] then [] else [TranslitChar(text[0])] + Transliterate(text[1..])
  }

  /** Which rule of has_name produced the name. */
  datatype NameForm = InParens | BeforeColon | BeforeDash

  /**
   * has_name, with the rule that produced it: the text between a leading '('
   * and the first ')' when that is past position 2; otherwise the text
   * before the first ':' if it is shorter than 20; otherwise that text cut
   * before the first " - " if it is shorter than 20; otherwise nothing. The
   * source returns from inside its loop over the dividers, so the " - " cut
   * is only tried on a text of 20 or more characters.
   */
  function NameWithForm(text: string): (r: Option<(string, NameForm)>)
    ensures var t := WithoutTags(text);
      r.Some? && r.value.1 == InParens ==> |t| > 0 && t[0] == '(' && |r.value.0| + 2 <= |t| && t[1..|r.value.0| + 2] == r.value.0 + ")"
    ensures var t := WithoutTags(text);
      r.Some? && r.value.1 != InParens ==> |r.value.0| < 20 && |r.value.0| <= |t| && r.value.0 == t[..|r.value.0|]
    ensures var t := WithoutTags(text);
      r.Some? && r.value.1 == BeforeColon ==> ':' !in r.value.0 && (|r.value.0| < |t| ==> t[|r.value.0|] == ':')
  {
    var t := WithoutTags(text);
    var close := Find(t, ")");
    if t != [] && t[0] == '(' && close > 2 then
      assert t[close..close + 1] == ")";
      assert t[1..close + 1] == t[1..close] + ")";
      Some((t[1..close], InParens))
    else
      var t1 := BeforeFirst(t, ":");
      NoColonBefore(t);
      if |t1| < 20 then Some((t1, BeforeColon))
      else
        var t2 := BeforeFirst(t1, " - ");
        if |t2| < 20 then Some((t2, BeforeDash)) else None
  }

  /** The text before the first ':' holds no ':', and the ':' follows it. */
  lemma NoColonBefore(t: string)
    ensures ':' !in BeforeFirst(t, ":")
    ensures |BeforeFirst(t, ":")| < |t| ==> t[|BeforeFirst(t, ":")|] == ':'
  {
    var r := BeforeFirst(t, ":");
    forall i | 0 <= i < |r| ensures r[i] != ':' {
      assert !OccursAt(t, ":", i);
      assert t[i..i + 1] == [t[i]];
    }
    if |r| < |t| {
      assert Contains(t, ":");
      assert t[|r|..|r| + 1] == ":";
    }
  }

  /** has_name */
  function HasName(text: string): (r: Option<string>)
    ensures r.Some? <==> NameWithForm(text).Some?
    ensures r.Some? ==> r.value == NameWithForm(text).value.0
  {
    match NameWithForm(text)
    case Some((name, _)) => Some(name)
    case None => None
  }

  /**
   * get_name: the "(x) " prefix or the whole tag-stripped text, cut before ':'
   * and then before " - ", cut to its first five space-separated words,
   * lower-cased and transliterated. The source discards the result of
   * replacing spaces with underscores, so spaces stay.
   */
  function NameOf(text: string): (r: string)
    ensures ':' !in r
    ensures Count(r, ' ') < MaxWordsInName
    ensures forall i :: 0 <= i < |r| ==> !IsRussianLetter(r[i])
    ensures forall i :: 0 <= i < |r| ==> !('A' <= r[i] <= 'Z')
  {
    var t0 := WithoutTags(text);
    var close := Find(t0, ") ");
    var t1 := if t0 != [] && t0[0] == '(' && close > 2 then t0[1..close] else t0;
    var t2 := BeforeFirst(BeforeFirst(t1, ":"), " - ");
    var words := SplitOn(t2, ' ');
    var t3 := if |words| > MaxWordsInName then Join(words[..MaxWordsInName], ' ') else t2;
    NameBounds(t1, t2, words, t3);
    Transliterate(Lower(t3))
  }

  /** The text get_name works on: the "(x) " prefix when there is one, else the whole tag-stripped text. */
  predicate InParensForm(text: string) {
    var t := WithoutTags(text);
    t != [] && t[0] == '(' && Find(t, ") ") > 2
  }

  /**
   * A name in parentheses is the text up to the first ") ", lower-cased and
   * transliterated with its spaces, when it holds no divider and at most
   * five words.
   */
  lemma NameInParens(text: string)
    ensures InParensForm(text) ==>
      var t := WithoutTags(text); var x := t[1..Find(t, ") ")];
      !Contains(x, ":") && !Contains(x, " - ") && Count(x, ' ') < MaxWordsInName ==>
        NameOf(text) == Transliterate(Lower(x))
  {
  }

  /**
   * Without the parenthesised form, the name is the tag-stripped text cut
   * before the first ':' and then before the first " - ", lower-cased and
   * transliterated with its spaces, when that holds at most five words.
   */
  lemma NameCutAtDividers(text: string)
    ensures var c := BeforeFirst(BeforeFirst(WithoutTags(text), ":"), " - ");
      !InParensForm(text) && Count(c, ' ') < MaxWordsInName ==> NameOf(text) == Transliterate(Lower(c))
  {
  }

  /**
   * When the cut text has more than five words, the name keeps the text up
   * to its fifth space: a prefix of the cut text, with four spaces, that a
   * space follows.
   */
  lemma NameFirstFiveWords(text: string)
    ensures var t := WithoutTags(text);
      var t1 := if InParensForm(text) then t[1..Find(t, ") ")] else t;
      var c := BeforeFirst(BeforeFirst(t1, ":"), " - ");
      Count(c, ' ') >= MaxWordsInName ==>
        exists p :: |p| < |c| && p == c[..|p|] && c[|p|] == ' ' && Count(p, ' ') == MaxWordsInName - 1 &&
          NameOf(text) == Transliterate(Lower(p))
  {
    var t := WithoutTags(text);
    var t1 := if InParensForm(text) then t[1..Find(t, ") ")] else t;
    var c := BeforeFirst(BeforeFirst(t1, ":"), " - ");
    if Count(c, ' ') >= MaxWordsInName {
      JoinSplitPrefix(c, ' ', MaxWordsInName);
      var p := Join(SplitOn(c, ' ')[..MaxWordsInName], ' ');
      assert NameOf(text) == Transliterate(Lower(p));
    }
  }

  /**
   * has_name and get_name agree on a name read before ':' when get_name does
   * not take a "(x) " prefix and the name holds no " - " and at most five
   * words: get_name is that name, lower-cased and transliterated.
   */
  lemma NameFromHasName(text: string)
    ensures var n := NameWithForm(text);
      n.Some? && n.value.1 == BeforeColon && !InParensForm(text) &&
      !Contains(n.value.0, " - ") && Count(n.value.0, ' ') < MaxWordsInName ==>
        NameOf(text) == Transliterate(Lower(n.value.0))
  {
  }

  /** "my term: about it" is named "my term": cut at ':' with its space kept, not replaced by '_'. */
  lemma NameKeepsSpaceExample()
    ensures NameOf("my term: about it") == "my term"
  {
    var text := "my term: about it";
    CutTermExample(text);
    LowerTermIsItself("my term");
    assert !InParensForm(text);
    NameCutAtDividers(text);
  }

  lemma CutTermExample(text: string)
    requires text == "my term: about it"
    ensures BeforeFirst(BeforeFirst(WithoutTags(text), ":"), " - ") == "my term"
    ensures Count("my term", ' ') == 1
  {
    assert WithoutTags(text) == text;
    ColonCutExample(text);
    NoDashExample("my term");
    assert Count("my term", ' ') == 1;
  }

  lemma ColonCutExample(text: string)
    requires text == "my term: about it"
    ensures BeforeFirst(text, ":") == "my term"
  {
    assert OccursAt(text, ":", 7);
    forall i | 0 <= i < 7 ensures !OccursAt(text, ":", i) { assert text[i..i + 1] == [text[i]]; }
    assert text[..7] == "my term";
  }

  lemma NoDashExample(m: string)
    requires m == "my term"
    ensures BeforeFirst(m, " - ") == m
  {
    forall i | 0 <= i <= |m| ensures !OccursAt(m, " - ", i) {
      if i + 3 <= |m| { assert m[i..i + 3][1] == m[i + 1]; assert m[i..i + 3][0] == m[i]; }
    }
    assert !Contains(m, " - ");
  }

  lemma LowerTermIsItself(m: string)
    requires m == "my term"
    ensures Transliterate(Lower(m)) == m
  {
    LowerKeepsLower(m);
    assert Transliterate(m) == m;
  }

  /** The steps of get_name keep ':' out and at most four spaces in. */
  lemma NameBounds(t1: string, t2: string, words: seq<string>, t3: string)
    requires t2 == BeforeFirst(BeforeFirst(t1, ":"), " - ")
    requires words == SplitOn(t2, ' ')
    requires t3 == if |words| > MaxWordsInName then Join(words[..MaxWordsInName], ' ') else t2
    ensures ':' !in Transliterate(Lower(t3))
    ensures Count(Transliterate(Lower(t3)), ' ') < MaxWordsInName
  {
    NoColonBefore(t1);
    var c := BeforeFirst(t1, ":");
    assert t2 == c[..|t2|];
    assert ':' !in t2 by {
      forall i | 0 <= i < |t2| ensures t2[i] != ':' { assert t2[i] == c[i]; }
    }
    if |words| > MaxWordsInName {
      SplitPiecesFree(t2, ' ', ':');
      JoinPrefixFree(words, MaxWordsInName, ':');
      JoinCount(words[..MaxWordsInName], ' ');
    }
    assert ':' !in t3;
    MapKeepsChars(t3);
  }

  /** Joining some of the pieces of a split brings in no character the pieces lack, other than the separator. */
  lemma {:induction false} JoinPrefixFree(words: seq<string>, n: nat, c: char)
    requires n <= |words|
    requires forall i :: 0 <= i < |words| ==> c !in words[i]
    requires c != ' '
    ensures c !in Join(words[..n], ' ')
    decreases n
  {
    if n > 1 {
      JoinPrefixFree(words[1..], n - 1, c);
      assert words[..n][1..] == words[1..][..n - 1];
    } else if n == 1 {
      assert words[..n] == [words[0]];
    }
  }

  /** A character missing from s is missing from every piece of its split. */
  lemma {:induction false} SplitPiecesFree(s: string, sep: char, c: char)
    requires c !in s
    ensures forall i :: 0 <= i < |SplitOn(s, sep)| ==> c !in SplitOn(s, sep)[i]
    decreases |s|
  {
    if s != [] {
      SplitPiecesFree(s[1..], sep, c);
    }
  }

  /** Joining k separator-free words uses k - 1 separators. */
  lemma {:induction false} JoinCount(words: seq<string>, sep: char)
    requires |words| > 0
    requires forall i :: 0 <= i < |words| ==> sep !in words[i]
    ensures Count(Join(words, sep), sep) == |words| - 1
    decreases |words|
  {
    CountFree(words[0], sep);
    if |words| > 1 {
      JoinCount(words[1..], sep);
      CountAppend(words[0] + [sep], Join(words[1..], sep), sep);
      CountAppend(words[0], [sep], sep);
      assert Count([sep], sep) == 1 by { assert [sep][1..] == []; }
    }
  }

  lemma {:induction false} CountFree(s: string, c: char)
    requires c !in s
    ensures Count(s, c) == 0
    decreases |s|
  {
    if s != [] { CountFree(s[1..], c); }
  }

  lemma {:induction false} CountAppend(a: string, b: string, c: char)
    ensures Count(a + b, c) == Count(a, c) + Count(b, c)
    decreases |a|
  {
    if a == [] {
      assert a + b == b;
    } else {
      assert (a + b)[1..] == a[1..] + b;
      CountAppend(a[1..], b, c);
    }
  }

  /** Lower-casing and transliteration keep ':' and ' ' where they are, and bring in neither. */
  lemma {:induction false} MapKeepsChars(s: string)
    ensures ':' in Transliterate(Lower(s)) ==> ':' in s
    ensures Count(Transliterate(Lower(s)), ' ') == Count(s, ' ')
    decreases |s|
  {
    var r := Transliterate(Lower(s));
    if ':' in r {
      var i :| 0 <= i < |r| && r[i] == ':';
      assert TranslitChar(LowerChar(s[i])) == ':';
    }
    if s != [] {
      MapKeepsChars(s[1..]);
      assert Lower(s)[1..] == Lower(s[1..]);
      assert r[1..] == Transliterate(Lower(s[1..]));
      assert (r[0] == ' ') == (s[0] == ' ');
    }
  }

  /**
   * get_content as written: the tag-stripped text minus len(name) + 3
   * characters whenever a non-empty name was found. The "+ 3" fits the
   * "(name) " form; after a name ending at ':' it also drops the first
   * character of the content.
   */
  function ContentOf(text: string): (r: string)
    ensures HasName(text).Some? && HasName(text).value != [] ==> r == Drop(WithoutTags(text), |HasName(text).value| + 3)
    ensures HasName(text).None? || HasName(text).value == [] ==> r == WithoutTags(text)
    ensures |r| <= |WithoutTags(text)| && r == WithoutTags(text)[|WithoutTags(text)| - |r|..]
  {
    var t := WithoutTags(text);
    var name := HasName(text);
    if name.Some? && name.value != [] then Drop(t, |name.value| + 3) else t
  }

  /**
   * After a name in parentheses the content is what follows '(', the name,
   * ')' and one more character, whatever that character is.
   */
  lemma ContentAfterParens(text: string)
    requires NameWithForm(text).Some? && NameWithForm(text).value.1 == InParens
    requires |NameWithForm(text).value.0| + 3 <= |WithoutTags(text)|
    ensures var t := WithoutTags(text); var name := NameWithForm(text).value.0;
      t == "(" + name + ")" + [t[|name| + 2]] + ContentOf(text)
  {
    var t := WithoutTags(text);
    var name := NameWithForm(text).value.0;
    assert t[1..|name| + 2] == name + ")";
    assert name != [] by {
      var close := Find(t, ")");
      assert name == t[1..close] && close > 2;
    }
    CutThree(t, 1, |name| + 2, |name| + 3);
    assert t[..1] == "(" && t[|name| + 2..|name| + 3] == [t[|name| + 2]];
    assert ContentOf(text) == t[|name| + 3..];
    Regroup(t, "(", name, ")", [t[|name| + 2]], ContentOf(text));
  }

  lemma CutThree(t: string, i: nat, j: nat, k: nat)
    requires i <= j <= k <= |t|
    ensures t == t[..i] + t[i..j] + t[j..k] + t[k..]
  {
    assert t[..k] == t[..i] + t[i..j] + t[j..k];
  }

  lemma Regroup(t: string, a: string, b: string, c: string, d: string, e: string)
    requires t == a + (b + c) + d + e
    ensures t == a + b + c + d + e
  {
  }

  /** After a name cut before " - ", the content is exactly what follows the " - ". */
  lemma ContentAfterDash(text: string)
    requires NameWithForm(text).Some? && NameWithForm(text).value.1 == BeforeDash
    ensures var t := WithoutTags(text); var name := NameWithForm(text).value.0;
      name != [] ==> t == name + " - " + ContentOf(text)
  {
    var t := WithoutTags(text);
    var name := NameWithForm(text).value.0;
    var t1 := BeforeFirst(t, ":");
    assert name == BeforeFirst(t1, " - ") && |name| < 20 <= |t1|;
    assert Contains(t1, " - ");
    DashSplit(t, t1, name);
  }

  lemma DashSplit(t: string, t1: string, name: string)
    requires |name| <= |t1| <= |t| && t1 == t[..|t1|] && name == t1[..|name|] && OccursAt(t1, " - ", |name|)
    ensures t == name + " - " + t[|name| + 3..]
  {
    assert t[|name|..|name| + 3] == t1[|name|..|name| + 3];
    assert t == t[..|name|] + t[|name|..|name| + 3] + t[|name| + 3..];
  }

  /**
   * After a name cut before ':', the code drops one character more than the
   * colon and its following space: the intended content loses its first
   * character, or its first two when no space follows the colon.
   */
  lemma ContentAfterColon(text: string)
    requires NameWithForm(text).Some? && NameWithForm(text).value.1 == BeforeColon
    requires NameWithForm(text).value.0 != []
    ensures var t := WithoutTags(text); var name := NameWithForm(text).value.0;
      |name| + 1 < |t| && t[|name| + 1] == ' ' ==> ContentOf(text) == Drop(IntendedContent(text), 1)
    ensures var t := WithoutTags(text); var name := NameWithForm(text).value.0;
      !(|name| + 1 < |t| && t[|name| + 1] == ' ') ==> ContentOf(text) == Drop(IntendedContent(text), 2)
  {
    var t := WithoutTags(text);
    var name := NameWithForm(text).value.0;
    var rest := Drop(t, |name| + 1);
    assert IntendedContent(text) == if rest != [] && rest[0] == ' ' then rest[1..] else rest;
    if |name| + 1 < |t| {
      assert rest[0] == t[|name| + 1];
      if |name| + 3 <= |t| {
        assert rest[1..][1..] == t[|name| + 3..];
        assert rest[2..] == t[|name| + 3..];
      }
    }
  }

  /**
   * get_content as evidently intended: after a name that ends at ':', only
   * the ':' and one following space are dropped; every other form drops what
   * the code drops.
   */
  function IntendedContent(text: string): (r: string)
    ensures |r| <= |WithoutTags(text)| && r == WithoutTags(text)[|WithoutTags(text)| - |r|..]
  {
    var t := WithoutTags(text);
    match NameWithForm(text)
    case Some((name, BeforeColon)) =>
      if name == [] then t
      else
        var rest := Drop(t, |name| + 1);
        if rest != [] && rest[0] == ' ' then rest[1..] else rest
    case _ => ContentOf(text)
  }

  /** With the correction, a name ending at ':' is followed by the colon, an optional space and the content. */
  lemma IntendedContentFollowsColon(text: string)
    requires NameWithForm(text).Some? && NameWithForm(text).value.1 == BeforeColon
    requires NameWithForm(text).value.0 != [] && |NameWithForm(text).value.0| < |WithoutTags(text)|
    ensures var t := WithoutTags(text); var name := NameWithForm(text).value.0;
      t == name + ":" + IntendedContent(text) || t == name + ": " + IntendedContent(text)
  {
    var t := WithoutTags(text);
    var name := NameWithForm(text).value.0;
    ColonSplit(t, name);
  }

  lemma ColonSplit(t: string, name: string)
    requires |name| < |t| && name == t[..|name|] && t[|name|] == ':'
    ensures var rest := Drop(t, |name| + 1);
      var content := if rest != [] && rest[0] == ' ' then rest[1..] else rest;
      t == name + ":" + content || t == name + ": " + content
  {
    assert t == t[..|name|] + [t[|name|]] + t[|name| + 1..];
    var rest := Drop(t, |name| + 1);
    if rest != [] && rest[0] == ' ' {
      assert rest == [' '] + rest[1..];
    }
  }

  /** On "ab: cd" the name is "ab", read before the ':'. */
  lemma NameBeforeColonExample()
    ensures WithoutTags("ab: cd") == "ab: cd"
    ensures NameWithForm("ab: cd") == Some(("ab", BeforeColon))
    ensures HasName("ab: cd") == Some("ab")
  {
    var text := "ab: cd";
    assert text[0..1][0] == 'a' && text[1..2][0] == 'b' && text[2..3] == ":";
    assert BeforeFirst(text, ":") == "ab" by {
      assert OccursAt(text, ":", 2) && !OccursAt(text, ":", 0) && !OccursAt(text, ":", 1);
      assert text[..2] == "ab";
    }
    assert WithoutTags(text) == text;
  }

  /** On "ab: cd" the code yields the content "d", the correction "cd". */
  lemma ContentDropsCharAfterColon()
    ensures ContentOf("ab: cd") == "d"
    ensures IntendedContent("ab: cd") == "cd"
  {
    NameBeforeColonExample();
    assert Drop("ab: cd", 5) == "d";
    assert Drop("ab: cd", 3) == " cd";
  }

  // ---------------------------------------------------------------- paragraphs

  /** One step of adjust_level: the remaining text adjusts to the same text, and the line is unchanged. */
  lemma IndentStepKeepsLine(text: string, level: int)
    requires HasIndent(text)
    ensures Adjust(text[IndentStep..]) == (Adjust(text).0, Adjust(text).1 - 1)
    ensures level >= 0 ==> Spaces(IndentStep * (level + 1)) + text[IndentStep..] == Spaces(IndentStep * level) + text
  {
    if level >= 0 {
      assert text == Indent + text[IndentStep..];
      SpacesAdd(IndentStep * level, IndentStep);
      assert Spaces(IndentStep) == Indent;
    }
  }

  /** Paragraph: one outline line, split into its indent level and the remaining text. */
  class Paragraph {
    var text: string
    var level: int

    /** Paragraph(text, level, adjust_level): with adjustLevel, whole leading indent steps move into the level. */
    constructor (text: string, level: int, adjustLevel: bool)
      ensures adjustLevel ==> this.text == Adjust(text).0 && this.level == level + Adjust(text).1
      ensures !adjustLevel ==> this.text == text && this.level == level
    {
      this.text := text;
      this.level := level;
      new;
      if adjustLevel {
        AdjustLevel();
      }
    }

    /** get_line: the text behind four spaces per level. */
    function Line(): (r: string)
      reads this
      ensures |r| == |text| + (if level > 0 then IndentStep * level else 0)
      ensures r[|r| - |text|..] == text
    {
      Spaces(IndentStep * level) + text
    }

    /**
     * adjust_level: while the text has an indent, drop four spaces and raise
     * the level by one. For a paragraph whose level is not negative the
     * rendered line stays the same.
     */
    method AdjustLevel()
      modifies this
      ensures text == Adjust(old(text)).0 && level == old(level) + Adjust(old(text)).1
      ensures !HasIndent(text)
      ensures old(level) >= 0 ==> Line() == old(Line())
    {
      ghost var line := Spaces(IndentStep * level) + text;
      while HasIndent(text)
        invariant Adjust(text).0 == Adjust(old(text)).0
        invariant level + Adjust(text).1 == old(level) + Adjust(old(text)).1
        invariant old(level) >= 0 ==> level >= 0 && Spaces(IndentStep * level) + text == line
        decreases |text|
      {
        IndentStepKeepsLine(text, level);
        level := level + 1;
        text := text[IndentStep..];
      }
    }

    /** set_line: a new text at the current level, adjusted again. */
    method SetLine(text: string)
      modifies this
      ensures this.text == Adjust(text).0 && level == old(level) + Adjust(text).1
    {
      this.text := text;
      AdjustLevel();
    }

    /** get_mark with standard_only. */
    function Mark(standardOnly: bool): (r: Option<char>)
      reads this
      ensures r.Some? ==> |text| > 2 && text[0] == r.value && text[1] == ' '
      ensures r.None? || !standardOnly || r.value in Markers || r.value in SkipMarkers
    {
      MarkOf(text, standardOnly)
    }
  }

  /** The first test case: "    mytext" becomes level 1, text "mytext", and renders back unchanged. */
  lemma ParagraphExample()
    ensures Adjust("    mytext") == ("mytext", 1)
    ensures Spaces(IndentStep * 1) + "mytext" == "    mytext"
  {
    var text := "    mytext";
    assert text[..4] == "    ";
    assert HasIndent(text);
    assert text[4..] == "mytext";
    assert !HasIndent("mytext") by {
      assert "mytext"[0] == 'm';
    }
    assert Spaces(4) == "    " by {
      assert Spaces(0) == [];
    }
  }

  // ---------------------------------------------------------------- branch selection of get_item

  /** What get_item does with one subtree, chosen from that subtree's title paragraph. */
  datatype Branch =
    | ParentLink   // a link to the parent named by the title
    | StructBlock  // a structure block holding one child item per element below the title
    | ChildItem    // the whole subtree as a single child item
    | UsageList    // one usage link per element below the title
    | UsageLink    // one usage link named by the title
    | InfoLines    // every line of the subtree as info content

  /** The tags of a parent link. */
  const ParentTags: set<string> := {"parent", "category", "cat"}
  /** The tags of a child structure, besides the '=' marker. */
  const ChildTags: set<string> := {"child", "children", "struct", "structure"}

  /** The tag is present and one of tags. */
  predicate TagIn(text: string, tags: set<string>) {
    TagOf(text).Some? && TagOf(text).value in tags
  }

  /** str.endswith(':') */
  predicate EndsWithColon(s: string) {
    s != [] && s[|s| - 1] == ':'
  }

  /**
   * The if/elif chain of get_item over a subtree's title text: parent tags
   * first, then the '=' marker or a child tag (a list when the content is
   * empty or ends with ':'), then the usage tag (a list when the content ends
   * with ':'), and info lines for everything else.
   */
  function BranchOf(text: string): (r: Branch)
    ensures r == ParentLink <==> TagIn(text, ParentTags)
    ensures r in {StructBlock, ChildItem} <==>
      !TagIn(text, ParentTags) && (MarkOf(text, true) == Some('=') || TagIn(text, ChildTags))
    ensures r in {UsageList, UsageLink} <==>
      !TagIn(text, ParentTags) && MarkOf(text, true) != Some('=') && !TagIn(text, ChildTags) && TagOf(text) == Some("usage")
    ensures r == StructBlock <==> r in {StructBlock, ChildItem} && (ContentOf(text) == [] || EndsWithColon(ContentOf(text)))
    ensures r == UsageList <==> r in {UsageList, UsageLink} && EndsWithColon(ContentOf(text))
  {
    var content := ContentOf(text);
    if TagIn(text, ParentTags) then ParentLink
    else if MarkOf(text, true) == Some('=') || TagIn(text, ChildTags) then
      if EndsWithColon(content) || content == [] then StructBlock else ChildItem
    else if TagOf(text) == Some("usage") then
      if EndsWithColon(content) then UsageList else UsageLink
    else InfoLines
  }

  /** A title without a '=' marker and without a leading '[' after its marker becomes info lines. */
  lemma UntaggedIsInfo(text: string)
    requires MarkOf(text, true) != Some('=')
    requires WithoutMarks(text) == [] || WithoutMarks(text)[0] != '['
    ensures TagOf(text).None?
    ensures BranchOf(text) == InfoLines
  {
  }

  /**
   * A short title with neither '(' at its start nor ':' in it is its own
   * name, so get_content leaves nothing of it: under a '=' marker it always
   * opens a structure block, never a single child item, unless a parent tag
   * takes precedence.
   */
  lemma ShortTitleHasNoContent(text: string)
    requires var t := WithoutTags(text); t != [] && t[0] != '(' && ':' !in t && |t| < 20
    ensures HasName(text) == Some(WithoutTags(text))
    ensures ContentOf(text) == []
    ensures MarkOf(text, true) == Some('=') && !TagIn(text, ParentTags) ==> BranchOf(text) == StructBlock
  {
    var t := WithoutTags(text);
    assert !Contains(t, ":") by {
      forall i | 0 <= i <= |t| ensures !OccursAt(t, ":", i) {
        assert i < |t| ==> t[i..i + 1] == [t[i]];
      }
    }
  }
}
