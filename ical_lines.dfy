/**
 * Content lines of an iCalendar feed: unfolding the raw text into logical
 * lines (section 3.1 of RFC 5545) and splitting one logical line into its
 * name, parameters and value.
 */
module ICalLines {
  import opened Wrappers
  import opened JsText

  // ---------------------------------------------------------------------
  // Unfolding

  /** `.replace(/\r\n/g, '\n')`, scanning left to right. */
  function ReplaceCrLf(s: string): string
  {
    if |s| == 0 then s
    else if |s| >= 2 && s[0] == '\r' && s[1] == '\n' then "\n" + ReplaceCrLf(s[2..])
    else [s[0]] + ReplaceCrLf(s[1..])
  }

  /** `.replace(/\r/g, '\n')`: every CR becomes a line feed and every other character stays. */
  function ReplaceCr(s: string): (r: string)
    ensures |r| == |s| && '\r' !in r
    ensures forall i {:trigger r[i]} :: 0 <= i < |s| ==> (s[i] == '\r' ==> r[i] == '\n') && (s[i] != '\r' ==> r[i] == s[i])
  {
    seq(|s|, i requires 0 <= i < |s| => if s[i] == '\r' then '\n' else s[i])
  }

  predicate IsFoldChar(c: char) {
    c == ' ' || c == '\t'
  }

  /** `.replace(/\n[ \t]/g, '')`: every line break followed by a space or tab is dropped with it. */
  function RemoveFolds(s: string): (r: string)
    ensures forall c :: c in r ==> c in s
  {
    if |s| == 0 then s
    else if |s| >= 2 && s[0] == '\n' && IsFoldChar(s[1]) then RemoveFolds(s[2..])
    else [s[0]] + RemoveFolds(s[1..])
  }

  /**
   * `.map(l => l.trim())`: one trimmed line per piece, made of that piece's
   * characters (`TrimSlice` shows only whitespace is cut from its ends).
   */
  function TrimAll(pieces: seq<string>): (r: seq<string>)
    ensures |r| == |pieces|
    ensures forall k :: 0 <= k < |r| ==> r[k] == Trim(pieces[k])
    ensures forall k :: 0 <= k < |r| ==> IsTrimmed(r[k])
  {
    seq(|pieces|, k requires 0 <= k < |pieces| => Trim(pieces[k]))
  }

  /**
   * `.filter(l => l.length > 0)`: only non-empty pieces come out, and every
   * non-empty piece does (`DropEmptyAppend` keeps their order).
   */
  function DropEmpty(pieces: seq<string>): (r: seq<string>)
    ensures |r| <= |pieces|
    ensures forall k :: 0 <= k < |r| ==> r[k] != "" && r[k] in pieces
    ensures forall k :: 0 <= k < |pieces| && pieces[k] != "" ==> pieces[k] in r
  {
    if pieces == [] then []
    else if pieces[0] == "" then DropEmpty(pieces[1..])
    else [pieces[0]] + DropEmpty(pieces[1..])
  }

  /** Every line end, of any convention, as a single line feed. */
  function NormalizeNewlines(text: string): (r: string)
    ensures '\r' !in r
  {
    ReplaceCr(ReplaceCrLf(text))
  }

  /** A line that can stand as a logical content line: not empty, trimmed, on one line. */
  predicate IsLogicalLine(l: string) {
    l != "" && IsTrimmed(l) && '\r' !in l && '\n' !in l
  }

  lemma InJoin(parts: seq<string>, sep: char, k: int, c: char)
    requires 0 <= k < |parts| && c in parts[k]
    ensures c in Join(parts, sep)
  {
    if k > 0 {
      InJoin(parts[1..], sep, k - 1, c);
    }
  }

  /** `.split('\n').map(l => l.trim()).filter(l => l.length > 0)`. */
  function LinesOf(flat: string): (lines: seq<string>)
    requires '\r' !in flat
    ensures forall k :: 0 <= k < |lines| ==> IsLogicalLine(lines[k])
  {
    var pieces := Split(flat, '\n');
    assert forall k :: 0 <= k < |pieces| ==> '\r' !in pieces[k] by {
      forall k | 0 <= k < |pieces| ensures '\r' !in pieces[k] {
        if '\r' in pieces[k] {
          InJoin(pieces, '\n', k, '\r');
        }
      }
    }
    DropEmpty(TrimAll(pieces))
  }

  /**
   * The logical lines of a feed: line ends normalised, folded lines
   * rejoined, every line trimmed and blank lines dropped.
   */
  function UnfoldLines(text: string): (lines: seq<string>)
    ensures forall k :: 0 <= k < |lines| ==> IsLogicalLine(lines[k])
  {
    LinesOf(RemoveFolds(NormalizeNewlines(text)))
  }

  // Unfolding distributes over concatenation where no match straddles the seam.

  lemma AppendAssoc(a: string, b: string, c: string)
    ensures a + (b + c) == (a + b) + c
  {
  }

  lemma {:induction false} ReplaceCrLfAppend(x: string, y: string)
    requires x == [] || x[|x| - 1] != '\r'
    ensures ReplaceCrLf(x + y) == ReplaceCrLf(x) + ReplaceCrLf(y)
  {
    if x == [] {
      assert x + y == y;
    } else if |x| >= 2 && x[0] == '\r' && x[1] == '\n' {
      ReplaceCrLfAppend(x[2..], y);
      ReplaceCrLfPair(x, y);
      AppendAssoc("\n", ReplaceCrLf(x[2..]), ReplaceCrLf(y));
    } else {
      ReplaceCrLfAppend(x[1..], y);
      ReplaceCrLfSingle(x, y);
      AppendAssoc([x[0]], ReplaceCrLf(x[1..]), ReplaceCrLf(y));
    }
  }

  /** A match at the front of `x` is a match at the front of `x + y`. */
  lemma ReplaceCrLfPair(x: string, y: string)
    requires |x| >= 2 && x[0] == '\r' && x[1] == '\n'
    ensures ReplaceCrLf(x) == "\n" + ReplaceCrLf(x[2..])
    ensures ReplaceCrLf(x + y) == "\n" + ReplaceCrLf(x[2..] + y)
  {
    assert (x + y)[2..] == x[2..] + y;
  }

  /** Without a match at the front of `x`, and with `x` not ending in the first character of one, its first character is kept. */
  lemma ReplaceCrLfSingle(x: string, y: string)
    requires x != [] && x[|x| - 1] != '\r'
    requires !(|x| >= 2 && x[0] == '\r' && x[1] == '\n')
    ensures ReplaceCrLf(x) == [x[0]] + ReplaceCrLf(x[1..])
    ensures ReplaceCrLf(x + y) == [x[0]] + ReplaceCrLf(x[1..] + y)
  {
    assert (x + y)[1..] == x[1..] + y;
    if |x| >= 2 {
      assert (x + y)[1] == x[1];
    }
  }

  lemma {:induction false} ReplaceCrLfLast(x: string)
    requires x != []
    ensures ReplaceCrLf(x) != [] && ReplaceCrLf(x)[|ReplaceCrLf(x)| - 1] == x[|x| - 1]
  {
    if |x| >= 2 && x[0] == '\r' && x[1] == '\n' {
      if |x| > 2 {
        ReplaceCrLfLast(x[2..]);
      }
    } else if |x| > 1 {
      ReplaceCrLfLast(x[1..]);
    }
  }

  lemma {:induction false} ReplaceCrLfNoCr(x: string)
    requires '\r' !in x
    ensures ReplaceCrLf(x) == x
  {
    if x != [] {
      assert '\r' !in x[1..];
      ReplaceCrLfNoCr(x[1..]);
    }
  }

  lemma ReplaceCrAppend(x: string, y: string)
    ensures ReplaceCr(x + y) == ReplaceCr(x) + ReplaceCr(y)
  {
    assert forall i :: 0 <= i < |x + y| ==> ReplaceCr(x + y)[i] == (ReplaceCr(x) + ReplaceCr(y))[i];
  }

  lemma NormalizeAppend(x: string, y: string)
    requires x == [] || x[|x| - 1] != '\r'
    ensures NormalizeNewlines(x + y) == NormalizeNewlines(x) + NormalizeNewlines(y)
  {
    ReplaceCrLfAppend(x, y);
    ReplaceCrAppend(ReplaceCrLf(x), ReplaceCrLf(y));
  }

  lemma {:induction false} RemoveFoldsAppend(x: string, y: string)
    requires x == [] || x[|x| - 1] != '\n'
    ensures RemoveFolds(x + y) == RemoveFolds(x) + RemoveFolds(y)
  {
    if x == [] {
      assert x + y == y;
    } else if |x| >= 2 && x[0] == '\n' && IsFoldChar(x[1]) {
      RemoveFoldsAppend(x[2..], y);
      RemoveFoldsPair(x, y);
      AppendAssoc("", RemoveFolds(x[2..]), RemoveFolds(y));
    } else {
      RemoveFoldsAppend(x[1..], y);
      RemoveFoldsSingle(x, y);
      AppendAssoc([x[0]], RemoveFolds(x[1..]), RemoveFolds(y));
    }
  }

  /** A match at the front of `x` is a match at the front of `x + y`. */
  lemma RemoveFoldsPair(x: string, y: string)
    requires |x| >= 2 && x[0] == '\n' && IsFoldChar(x[1])
    ensures RemoveFolds(x) == "" + RemoveFolds(x[2..])
    ensures RemoveFolds(x + y) == "" + RemoveFolds(x[2..] + y)
  {
    assert (x + y)[2..] == x[2..] + y;
  }

  /** Without a match at the front of `x`, and with `x` not ending in the first character of one, its first character is kept. */
  lemma RemoveFoldsSingle(x: string, y: string)
    requires x != [] && x[|x| - 1] != '\n'
    requires !(|x| >= 2 && x[0] == '\n' && IsFoldChar(x[1]))
    ensures RemoveFolds(x) == [x[0]] + RemoveFolds(x[1..])
    ensures RemoveFolds(x + y) == [x[0]] + RemoveFolds(x[1..] + y)
  {
    assert (x + y)[1..] == x[1..] + y;
    if |x| >= 2 {
      assert (x + y)[1] == x[1];
    }
  }

  lemma {:induction false} RemoveFoldsNoBreak(x: string)
    requires '\n' !in x
    ensures RemoveFolds(x) == x
  {
    if x != [] {
      assert '\n' !in x[1..];
      RemoveFoldsNoBreak(x[1..]);
    }
  }

  /**
   * Folding (RFC 5545, section 3.1): a line break followed by one space or
   * tab is removed together with that character and nothing is put in its
   * place, so text folded after any character other than CR or LF unfolds
   * to the same logical lines as the unfolded text.
   */
  lemma UnfoldJoinsFoldedLine(a: string, c: char, b: string)
    requires IsFoldChar(c)
    requires a == [] || (a[|a| - 1] != '\r' && a[|a| - 1] != '\n')
    ensures UnfoldLines(a + ['\n', c] + b) == UnfoldLines(a + b)
  {
    var na, nb := NormalizeNewlines(a), NormalizeNewlines(b);
    NormalizeFold(a, c, b);
    NormalizeAppend(a, b);
    if a != [] {
      ReplaceCrLfLast(a);
      assert na[|na| - 1] == a[|a| - 1];
    }
    RemoveFoldBetween(na, c, nb);
  }

  /** Normalising line ends leaves a fold in place and works on each side of it. */
  lemma NormalizeFold(a: string, c: char, b: string)
    requires IsFoldChar(c)
    requires a == [] || a[|a| - 1] != '\r'
    ensures NormalizeNewlines(a + ['\n', c] + b) == NormalizeNewlines(a) + (['\n', c] + NormalizeNewlines(b))
  {
    var fold := ['\n', c];
    assert a + fold + b == a + (fold + b);
    NormalizeAppend(a, fold + b);
    assert ReplaceCrLf(fold + b) == fold + ReplaceCrLf(b) by {
      assert (fold + b)[1..] == [c] + b;
      assert ([c] + b)[1..] == b;
    }
    ReplaceCrAppend(fold, ReplaceCrLf(b));
    assert ReplaceCr(fold) == fold;
  }

  /** Removing folds drops a fold between two texts when the first does not end in a line feed. */
  lemma RemoveFoldBetween(x: string, c: char, y: string)
    requires IsFoldChar(c)
    requires x == [] || x[|x| - 1] != '\n'
    ensures RemoveFolds(x + (['\n', c] + y)) == RemoveFolds(x + y)
  {
    var fold := ['\n', c];
    RemoveFoldsAppend(x, fold + y);
    RemoveFoldsAppend(x, y);
    assert (fold + y)[2..] == y;
  }

  /** The text of `lines`, each followed by a CRLF except the last. */
  function CrLfJoin(lines: seq<string>): string
  {
    if |lines| == 0 then ""
    else if |lines| == 1 then lines[0]
    else lines[0] + "\r\n" + CrLfJoin(lines[1..])
  }

  lemma {:induction false} CrLfJoinNormalizes(lines: seq<string>)
    requires forall k :: 0 <= k < |lines| ==> '\r' !in lines[k]
    ensures NormalizeNewlines(CrLfJoin(lines)) == Join(lines, '\n')
  {
    if |lines| == 1 {
      NormalizeWithoutCr(lines[0]);
    } else if |lines| > 1 {
      CrLfJoinNormalizes(lines[1..]);
      CrLfStep(lines[0], CrLfJoin(lines[1..]));
    }
  }

  lemma NormalizeWithoutCr(s: string)
    requires '\r' !in s
    ensures NormalizeNewlines(s) == s
  {
    ReplaceCrLfNoCr(s);
    assert ReplaceCr(s) == s;
  }

  /** A CRLF after a line without CR becomes one line feed. */
  lemma CrLfStep(head: string, tail: string)
    requires '\r' !in head
    ensures NormalizeNewlines(head + "\r\n" + tail) == head + "\n" + NormalizeNewlines(tail)
  {
    var rest := "\r\n" + tail;
    assert head + "\r\n" + tail == head + rest;
    assert head == [] || head[|head| - 1] != '\r';
    NormalizeAppend(head, rest);
    NormalizeWithoutCr(head);
    CrLfFirst(tail);
    assert head + ("\n" + NormalizeNewlines(tail)) == head + "\n" + NormalizeNewlines(tail);
  }

  lemma CrLfFirst(tail: string)
    ensures NormalizeNewlines("\r\n" + tail) == "\n" + NormalizeNewlines(tail)
  {
    var rest := "\r\n" + tail;
    assert rest[2..] == tail;
    assert ReplaceCrLf(rest) == "\n" + ReplaceCrLf(tail);
    ReplaceCrAppend("\n", ReplaceCrLf(tail));
  }

  /** A CR not followed by a line feed is a line end of its own and becomes one line feed. */
  lemma CrFirst(tail: string)
    requires tail == [] || tail[0] != '\n'
    ensures NormalizeNewlines("\r" + tail) == "\n" + NormalizeNewlines(tail)
  {
    var rest := "\r" + tail;
    assert rest[1..] == tail;
    assert ReplaceCrLf(rest) == "\r" + ReplaceCrLf(tail);
    ReplaceCrAppend("\r", ReplaceCrLf(tail));
  }

  /** Any other character is kept as it is. */
  lemma PlainFirst(c: char, tail: string)
    requires c != '\r'
    ensures NormalizeNewlines([c] + tail) == [c] + NormalizeNewlines(tail)
  {
    var rest := [c] + tail;
    assert rest[1..] == tail;
    assert ReplaceCrLf(rest) == [c] + ReplaceCrLf(tail);
    ReplaceCrAppend([c], ReplaceCrLf(tail));
  }

  /**
   * Line-end normalisation read from the front: CRLF and a lone CR each
   * become one line feed, and every other character is kept.
   */
  lemma NormalizeHead(s: string)
    requires s != []
    ensures s[0] == '\r' && |s| >= 2 && s[1] == '\n' ==> NormalizeNewlines(s) == "\n" + NormalizeNewlines(s[2..])
    ensures s[0] == '\r' && (|s| == 1 || s[1] != '\n') ==> NormalizeNewlines(s) == "\n" + NormalizeNewlines(s[1..])
    ensures s[0] != '\r' ==> NormalizeNewlines(s) == [s[0]] + NormalizeNewlines(s[1..])
  {
    if s[0] == '\r' && |s| >= 2 && s[1] == '\n' {
      assert s == "\r\n" + s[2..];
      CrLfFirst(s[2..]);
    } else if s[0] == '\r' {
      assert s == "\r" + s[1..];
      CrFirst(s[1..]);
    } else {
      assert s == [s[0]] + s[1..];
      PlainFirst(s[0], s[1..]);
    }
  }

  /** A lone CR after a line without CR becomes one line feed. */
  lemma CrStep(head: string, tail: string)
    requires '\r' !in head
    requires tail == [] || tail[0] != '\n'
    ensures NormalizeNewlines(head + "\r" + tail) == head + "\n" + NormalizeNewlines(tail)
  {
    var rest := "\r" + tail;
    assert head + "\r" + tail == head + rest;
    assert head == [] || head[|head| - 1] != '\r';
    NormalizeAppend(head, rest);
    NormalizeWithoutCr(head);
    CrFirst(tail);
    assert head + ("\n" + NormalizeNewlines(tail)) == head + "\n" + NormalizeNewlines(tail);
  }

  lemma {:induction false} CrJoinNormalizes(lines: seq<string>)
    requires forall k :: 0 <= k < |lines| ==> '\r' !in lines[k] && lines[k] != [] && lines[k][0] != '\n'
    ensures NormalizeNewlines(Join(lines, '\r')) == Join(lines, '\n')
  {
    if |lines| == 1 {
      NormalizeWithoutCr(lines[0]);
    } else if |lines| > 1 {
      var tail := Join(lines[1..], '\r');
      CrJoinNormalizes(lines[1..]);
      JoinStartsWithFirst(lines[1..], '\r');
      assert Join(lines, '\r') == lines[0] + "\r" + tail;
      CrStep(lines[0], tail);
    }
  }

  lemma {:induction false} JoinStartsWithFirst(parts: seq<string>, sep: char)
    requires |parts| > 0 && parts[0] != []
    ensures Join(parts, sep) != [] && Join(parts, sep)[0] == parts[0][0]
  {
  }

  /** A line break followed by the first character of a logical line is no fold. */
  lemma {:induction false} JoinedLinesHaveNoFolds(lines: seq<string>)
    requires |lines| > 0
    requires forall k :: 0 <= k < |lines| ==> '\n' !in lines[k] && lines[k] != [] && !IsFoldChar(lines[k][0])
    ensures RemoveFolds(Join(lines, '\n')) == Join(lines, '\n')
    ensures Join(lines, '\n')[0] == lines[0][0]
  {
    var head := lines[0];
    RemoveFoldsNoBreak(head);
    if |lines| > 1 {
      var joined := Join(lines[1..], '\n');
      JoinedLinesHaveNoFolds(lines[1..]);
      assert Join(lines, '\n') == head + ("\n" + joined);
      RemoveFoldsAppend(head, "\n" + joined);
      assert ("\n" + joined)[1..] == joined;
    }
  }

  /** The filter works piece by piece: it keeps the order and drops only blank pieces. */
  lemma {:induction false} DropEmptyAppend(a: seq<string>, b: seq<string>)
    ensures DropEmpty(a + b) == DropEmpty(a) + DropEmpty(b)
  {
    if a == [] {
      assert a + b == b;
    } else {
      assert (a + b)[1..] == a[1..] + b;
      DropEmptyAppend(a[1..], b);
    }
  }

  /** A blank piece is dropped and a non-empty one is kept. */
  lemma DropEmptyOne(piece: string)
    ensures DropEmpty([piece]) == if piece == "" then [] else [piece]
  {
    assert [piece][1..] == [];
  }

  lemma {:induction false} DropEmptyKeeps(pieces: seq<string>)
    requires forall k :: 0 <= k < |pieces| ==> pieces[k] != ""
    ensures DropEmpty(pieces) == pieces
  {
    if pieces != [] {
      DropEmptyKeeps(pieces[1..]);
    }
  }

  /**
   * Logical lines joined by line feeds split, trim and filter back into
   * exactly those lines, in order.
   */
  lemma LinesOfJoin(lines: seq<string>)
    requires |lines| > 0
    requires forall k :: 0 <= k < |lines| ==> IsLogicalLine(lines[k])
    ensures '\r' !in Join(lines, '\n') && LinesOf(Join(lines, '\n')) == lines
  {
    CrLfJoinNormalizes(lines);
    SplitJoin(lines, '\n');
    assert TrimAll(lines) == lines by {
      forall k | 0 <= k < |lines| ensures Trim(lines[k]) == lines[k] {
        assert IsLogicalLine(lines[k]);
      }
    }
    DropEmptyKeeps(lines);
  }

  /**
   * Logical lines written out with CRLF line ends unfold to exactly those
   * lines, in order.
   */
  lemma UnfoldCrLfJoin(lines: seq<string>)
    requires forall k :: 0 <= k < |lines| ==> IsLogicalLine(lines[k])
    ensures UnfoldLines(CrLfJoin(lines)) == lines
  {
    CrLfJoinNormalizes(lines);
    var joined := Join(lines, '\n');
    if lines == [] {
      assert RemoveFolds(joined) == "";
      assert Split("", '\n') == [""];
      assert TrimAll([""]) == [""];
    } else {
      forall k | 0 <= k < |lines|
        ensures '\n' !in lines[k] && lines[k] != [] && !IsFoldChar(lines[k][0])
      {
        assert IsLogicalLine(lines[k]);
      }
      JoinedLinesHaveNoFolds(lines);
      LinesOfJoin(lines);
    }
  }

  /**
   * Logical lines written out with lone CR line ends, as old Mac files
   * have them, unfold to exactly those lines, in order.
   */
  lemma UnfoldCrJoin(lines: seq<string>)
    requires forall k :: 0 <= k < |lines| ==> IsLogicalLine(lines[k])
    ensures UnfoldLines(Join(lines, '\r')) == lines
  {
    forall k | 0 <= k < |lines|
      ensures '\r' !in lines[k] && lines[k] != [] && lines[k][0] != '\n'
    {
      assert IsLogicalLine(lines[k]);
    }
    CrJoinNormalizes(lines);
    CrLfJoinNormalizes(lines);
    UnfoldCrLfJoin(lines);
  }

  // ---------------------------------------------------------------------
  // Property lines

  /** One content line: `name;KEY=value;...:value`. */
  datatype Property = Property(name: string, params: map<string, string>, value: string)

  /** The segment `seg` records a parameter under `key`: it has an `=` and the text before it upper-cases to `key`. */
  predicate Names(seg: string, key: string) {
    '=' in seg && ToUpper(seg[..IndexOf(seg, '=')]) == key
  }

  function ParamValue(seg: string): string
    requires '=' in seg
  {
    seg[IndexOf(seg, '=') + 1..]
  }

  /**
   * The parameters the segments after the name record, in order: a segment
   * without `=` records nothing, and a later key overwrites an earlier one.
   */
  function ParamsOf(segments: seq<string>): map<string, string>
  {
    if segments == [] then map[]
    else
      var params := ParamsOf(segments[..|segments| - 1]);
      var seg := segments[|segments| - 1];
      var eq := IndexOf(seg, '=');
      if eq > -1 then params[ToUpper(seg[..eq]) := seg[eq + 1..]] else params
  }

  /** The property a logical line holds. */
  function PropertyOf(line: string): Property
  {
    var colon := IndexOf(line, ':');
    if colon == -1 then Property("", map[], line)
    else
      var parts := Split(line[..colon], ';');
      Property(ToUpper(parts[0]), ParamsOf(parts[1..]), line[colon + 1..])
  }

  /** Splits a content line at its first colon and fills the parameter map one segment at a time. */
  method ParseLine(line: string) returns (p: Property)
    ensures p == PropertyOf(line)
  {
    var colon := IndexOf(line, ':');
    if colon == -1 {
      return Property("", map[], line);
    }
    var left := line[..colon];
    var value := line[colon + 1..];
    var parts := Split(left, ';');
    var name := ToUpper(parts[0]);
    var params: map<string, string> := map[];
    var i := 1;
    while i < |parts|
      invariant 1 <= i <= |parts|
      invariant params == ParamsOf(parts[1..i])
    {
      ParamsStep(parts, i);
      var eq := IndexOf(parts[i], '=');
      if eq > -1 {
        params := params[ToUpper(parts[i][..eq]) := parts[i][eq + 1..]];
      }
      i := i + 1;
    }
    assert parts[1..i] == parts[1..];
    p := Property(name, params, value);
  }

  /** One more segment updates the map the earlier segments record. */
  lemma ParamsStep(parts: seq<string>, i: nat)
    requires 1 <= i < |parts|
    ensures var eq := IndexOf(parts[i], '=');
            ParamsOf(parts[1..i + 1])
            == if eq > -1 then ParamsOf(parts[1..i])[ToUpper(parts[i][..eq]) := parts[i][eq + 1..]]
               else ParamsOf(parts[1..i])
  {
    assert parts[1..i + 1][..i - 1] == parts[1..i];
  }

  /** The position of the last segment that records `key`, or -1. */
  function LastNaming(segments: seq<string>, key: string): (i: int)
    ensures -1 <= i < |segments|
    ensures i >= 0 ==> Names(segments[i], key)
    ensures forall j :: i < j < |segments| ==> !Names(segments[j], key)
  {
    if segments == [] then -1
    else if Names(segments[|segments| - 1], key) then |segments| - 1
    else LastNaming(segments[..|segments| - 1], key)
  }

  /** A key is recorded iff some segment names it, and it holds the value of the last such segment. */
  lemma {:induction false} ParamsLastWins(segments: seq<string>, key: string)
    ensures key in ParamsOf(segments) <==> LastNaming(segments, key) >= 0
    ensures key in ParamsOf(segments) ==>
      ParamsOf(segments)[key] == ParamValue(segments[LastNaming(segments, key)])
  {
    if segments != [] {
      var init := segments[..|segments| - 1];
      ParamsLastWins(init, key);
      if !Names(segments[|segments| - 1], key) {
        var i := LastNaming(init, key);
        assert i >= 0 ==> segments[i] == init[i];
      }
    }
  }

  /**
   * A line composed of a name, `;`-separated parameter segments and a value
   * reads back as that name upper-cased, the parameters those segments
   * record, and the value, whatever colons the value holds.
   */
  lemma ParseLineComposed(name: string, segments: seq<string>, value: string)
    requires ':' !in name && ';' !in name
    requires forall k :: 0 <= k < |segments| ==> ':' !in segments[k] && ';' !in segments[k]
    ensures PropertyOf(Join([name] + segments, ';') + ":" + value)
         == Property(ToUpper(name), ParamsOf(segments), value)
  {
    var parts := [name] + segments;
    forall k | 0 <= k < |parts| ensures ':' !in parts[k] && ';' !in parts[k] {
      if k > 0 {
        assert parts[k] == segments[k - 1];
      }
    }
    var left := Join(parts, ';');
    JoinWithoutColon(parts);
    SplitJoin(parts, ';');
    assert parts[1..] == segments;
    PropertyAtFirstColon(left, value);
  }

  lemma PropertyAtFirstColon(left: string, value: string)
    requires ':' !in left
    ensures PropertyOf(left + ":" + value)
         == Property(ToUpper(Split(left, ';')[0]), ParamsOf(Split(left, ';')[1..]), value)
  {
    var line := left + ":" + value;
    assert line == left + [':'] + value;
    IndexOfFirst(left, ':', value);
    assert line[..|left|] == left;
    assert line[|left| + 1..] == value;
  }

  lemma JoinWithoutColon(parts: seq<string>)
    requires forall k :: 0 <= k < |parts| ==> ':' !in parts[k]
    ensures ':' !in Join(parts, ';')
  {
    if ':' in Join(parts, ';') {
      var i :| 0 <= i < |Join(parts, ';')| && Join(parts, ';')[i] == ':';
      JoinNoColon(parts, ';', i);
    }
  }

  lemma {:induction false} JoinNoColon(parts: seq<string>, sep: char, k: int)
    requires sep != ':'
    requires forall j :: 0 <= j < |parts| ==> ':' !in parts[j]
    requires 0 <= k < |Join(parts, sep)|
    ensures Join(parts, sep)[k] != ':'
  {
    if |parts| > 1 {
      var tail := Join(parts[1..], sep);
      assert Join(parts, sep) == parts[0] + [sep] + tail;
      if k < |parts[0]| {
        assert Join(parts, sep)[k] == parts[0][k];
      } else if k > |parts[0]| {
        assert Join(parts, sep)[k] == tail[k - |parts[0]| - 1];
        JoinNoColon(parts[1..], sep, k - |parts[0]| - 1);
      }
    } else if |parts| == 1 {
      assert Join(parts, sep)[k] == parts[0][k];
    }
  }

  /** A line without a colon is all value, with an empty name and no parameters. */
  lemma ParseLineWithoutColon(line: string)
    requires ':' !in line
    ensures PropertyOf(line) == Property("", map[], line)
  {
  }

  /**
   * A line with one parameter, `NAME;KEY=val:value`, such as
   * `DTSTART;TZID=America/New_York:20240115T090000`.
   */
  lemma ParseLineOneParam(name: string, key: string, val: string, value: string)
    requires ':' !in name && ';' !in name
    requires ':' !in key && ';' !in key && '=' !in key
    requires ':' !in val && ';' !in val
    requires forall i :: 0 <= i < |name| ==> !('a' <= name[i] <= 'z')
    requires forall i :: 0 <= i < |key| ==> !('a' <= key[i] <= 'z')
    ensures PropertyOf(name + ";" + key + "=" + val + ":" + value)
         == Property(name, map[key := val], value)
  {
    var seg := key + "=" + val;
    var line := name + ";" + key + "=" + val + ":" + value;
    assert line == Join([name, seg], ';') + ":" + value by {
      assert Join([name, seg], ';') == name + ";" + seg;
    }
    assert PropertyOf(line) == Property(ToUpper(name), ParamsOf([seg]), value) by {
      assert ':' !in seg && ';' !in seg;
      ParseLineComposed(name, [seg], value);
    }
    assert ToUpper(name) == name by {
      UpperKeeps(name);
    }
    assert ParamsOf([seg]) == map[key := val] by {
      SingleParam(key, val);
    }
  }

  lemma UpperKeeps(s: string)
    requires forall i :: 0 <= i < |s| ==> !('a' <= s[i] <= 'z')
    ensures ToUpper(s) == s
  {
  }

  lemma SingleParam(key: string, value: string)
    requires '=' !in key
    requires forall i :: 0 <= i < |key| ==> !('a' <= key[i] <= 'z')
    ensures ParamsOf([key + "=" + value]) == map[key := value]
  {
    var seg := key + "=" + value;
    IndexOfFirst(key, '=', value);
    assert seg == key + ['='] + value;
    assert seg[..|key|] == key && seg[|key| + 1..] == value;
    UpperKeeps(key);
    assert [seg][..0] == [];
  }
}
