/**
 * The text handling `processCommand` relies on: JavaScript's `trim()`,
 * `toLowerCase()` (on ASCII letters), `split(/\s+/)` and `parseFloat`.
 */
module CommandText {
  import opened Protocol
  import opened Decimal

  /** The characters JavaScript's `\s` and `trim()` treat as white space. */
  predicate IsSpace(c: char) {
    || c == '\t' || c == '\n' || c == '\U{B}' || c == '\U{C}' || c == '\r' || c == ' '
    || c == '\U{A0}' || c == '\U{1680}' || ('\U{2000}' <= c <= '\U{200A}')
    || c == '\U{2028}' || c == '\U{2029}' || c == '\U{202F}' || c == '\U{205F}'
    || c == '\U{3000}' || c == '\U{FEFF}'
  }

  predicate NoSpace(s: string) {
    forall i :: 0 <= i < |s| ==> !IsSpace(s[i])
  }

  /** `trimStart()`: drop the leading white space. */
  function TrimStart(s: string): (r: string)
    ensures |r| <= |s| && r == s[|s| - |r|..]
    ensures r == [] || !IsSpace(r[0])
    ensures forall i :: 0 <= i < |s| - |r| ==> IsSpace(s[i])
    decreases |s|
  {
    if s != [] && IsSpace(s[0]) then TrimStart(s[1..]) else s
  }

  /** `trimEnd()`: drop the trailing white space. */
  function TrimEnd(s: string): (r: string)
    ensures |r| <= |s| && r == s[..|r|]
    ensures r == [] || !IsSpace(r[|r| - 1])
    ensures forall i :: |r| <= i < |s| ==> IsSpace(s[i])
    decreases |s|
  {
    if s != [] && IsSpace(s[|s| - 1]) then TrimEnd(s[..|s| - 1]) else s
  }

  function Trim(s: string): string {
    TrimEnd(TrimStart(s))
  }

  predicate IsUpper(c: char) {
    'A' <= c <= 'Z'
  }

  predicate NoUpper(s: string) {
    forall i :: 0 <= i < |s| ==> !IsUpper(s[i])
  }

  function LowerChar(c: char): (d: char)
    ensures !IsUpper(d)
    ensures IsSpace(d) <==> IsSpace(c)
  {
    if IsUpper(c) then (c as int + 32) as char else c
  }

  /** `toLowerCase()` on ASCII letters; every other character is kept. */
  function ToLower(s: string): (r: string)
    ensures |r| == |s| && NoUpper(r)
    ensures forall i :: 0 <= i < |s| ==> r[i] == LowerChar(s[i])
  {
    seq(|s|, i requires 0 <= i < |s| => LowerChar(s[i]))
  }

  /** The longest prefix of `s` free of white space. */
  function NonSpaceRun(s: string): (w: string)
    ensures |w| <= |s| && w == s[..|w|] && NoSpace(w)
    ensures |w| < |s| ==> IsSpace(s[|w|])
    decreases |s|
  {
    if s == [] || IsSpace(s[0]) then [] else [s[0]] + NonSpaceRun(s[1..])
  }

  /**
   * `s.split(/\s+/)`: the pieces between maximal runs of white space, with an
   * empty first piece when `s` starts with white space and an empty last one
   * when it ends with it.
   */
  function SplitOnSpaces(s: string): (parts: seq<string>)
    ensures |parts| >= 1
    ensures parts[0] == NonSpaceRun(s)
    decreases |s|
  {
    var w := NonSpaceRun(s);
    var rest := s[|w|..];
    if rest == [] then [w] else [w] + SplitOnSpaces(TrimStart(rest))
  }

  /** `s` with every white-space character removed. */
  function RemoveSpaces(s: string): string
    decreases |s|
  {
    if s == [] then [] else (if IsSpace(s[0]) then [] else [s[0]]) + RemoveSpaces(s[1..])
  }

  function Concat(parts: seq<string>): string
    decreases |parts|
  {
    if parts == [] then [] else parts[0] + Concat(parts[1..])
  }

  lemma {:induction false} RemoveSpacesAppend(a: string, b: string)
    ensures RemoveSpaces(a + b) == RemoveSpaces(a) + RemoveSpaces(b)
    decreases |a|
  {
    if a != [] {
      var head := if IsSpace(a[0]) then [] else [a[0]];
      assert (a + b)[0] == a[0] && (a + b)[1..] == a[1..] + b;
      calc {
        RemoveSpaces(a + b);
        head + RemoveSpaces(a[1..] + b);
        { RemoveSpacesAppend(a[1..], b); }
        head + (RemoveSpaces(a[1..]) + RemoveSpaces(b));
        (head + RemoveSpaces(a[1..])) + RemoveSpaces(b);
        RemoveSpaces(a) + RemoveSpaces(b);
      }
    } else {
      assert a + b == b;
    }
  }

  lemma {:induction false} RemoveSpacesOfSpaces(s: string)
    requires forall i :: 0 <= i < |s| ==> IsSpace(s[i])
    ensures RemoveSpaces(s) == []
    decreases |s|
  {
    if s != [] {
      RemoveSpacesOfSpaces(s[1..]);
    }
  }

  lemma {:induction false} RemoveSpacesOfNoSpace(s: string)
    requires NoSpace(s)
    ensures RemoveSpaces(s) == s
    decreases |s|
  {
    if s != [] {
      RemoveSpacesOfNoSpace(s[1..]);
    }
  }

  predicate AllNoSpace(parts: seq<string>) {
    forall k :: 0 <= k < |parts| ==> NoSpace(parts[k])
  }

  lemma RemoveSpacesTrimStart(s: string)
    ensures RemoveSpaces(TrimStart(s)) == RemoveSpaces(s)
  {
    var t := TrimStart(s);
    var spaces := s[..|s| - |t|];
    assert s == spaces + t;
    RemoveSpacesAppend(spaces, t);
    RemoveSpacesOfSpaces(spaces);
  }

  lemma RemoveSpacesNoSpaceHead(s: string, w: string, rest: string)
    requires s == w + rest && NoSpace(w)
    ensures RemoveSpaces(s) == w + RemoveSpaces(rest)
  {
    RemoveSpacesAppend(w, rest);
    RemoveSpacesOfNoSpace(w);
  }

  lemma ConcatCons(w: string, tail: seq<string>)
    ensures Concat([w] + tail) == w + Concat(tail)
  {
    assert ([w] + tail)[1..] == tail;
  }

  /** Splitting yields pieces free of white space. */
  lemma {:induction false} SplitOnSpacesNoSpace(s: string)
    ensures AllNoSpace(SplitOnSpaces(s))
    decreases |s|
  {
    var w := NonSpaceRun(s);
    var rest := s[|w|..];
    if rest != [] {
      SplitOnSpacesNoSpace(TrimStart(rest));
    }
  }

  /**
   * Splitting loses exactly the white space: the pieces, put back together,
   * give the text without its white space.
   */
  lemma {:induction false} SplitOnSpacesConcat(s: string)
    ensures Concat(SplitOnSpaces(s)) == RemoveSpaces(s)
    decreases |s|
  {
    var w := NonSpaceRun(s);
    var rest := s[|w|..];
    RemoveSpacesNoSpaceHead(s, w, rest);
    if rest == [] {
      ConcatCons(w, []);
    } else {
      var t := TrimStart(rest);
      RemoveSpacesTrimStart(rest);
      SplitOnSpacesConcat(t);
      ConcatCons(w, SplitOnSpaces(t));
    }
  }

  /** Splitting a trimmed, non-empty text gives only non-empty pieces. */
  lemma {:induction false} SplitTrimmedHasNoEmptyPiece(s: string)
    requires s != [] && !IsSpace(s[0]) && !IsSpace(s[|s| - 1])
    ensures forall k :: 0 <= k < |SplitOnSpaces(s)| ==> SplitOnSpaces(s)[k] != []
    decreases |s|
  {
    var w := NonSpaceRun(s);
    var rest := s[|w|..];
    if rest != [] {
      var t := TrimStart(rest);
      assert rest[|rest| - 1] == s[|s| - 1];
      assert t[|t| - 1] == s[|s| - 1];
      SplitTrimmedHasNoEmptyPiece(t);
      assert SplitOnSpaces(s) == [w] + SplitOnSpaces(t);
    }
  }

  predicate CharsFrom(parts: seq<string>, s: string) {
    forall k, i :: 0 <= k < |parts| && 0 <= i < |parts[k]| ==> parts[k][i] in s
  }

  lemma CharsFromCons(w: string, tail: seq<string>, t: string, s: string)
    requires CharsFrom(tail, t)
    requires |t| <= |s| && t == s[|s| - |t|..]
    requires |w| <= |s| && w == s[..|w|]
    ensures CharsFrom([w] + tail, s)
  {
    forall c | c in t ensures c in s {
      var j :| 0 <= j < |t| && t[j] == c;
      assert s[|s| - |t| + j] == c;
    }
  }

  /** Every character of a piece occurs in the text that was split. */
  lemma {:induction false} SplitOnSpacesChars(s: string)
    ensures CharsFrom(SplitOnSpaces(s), s)
    decreases |s|
  {
    var w := NonSpaceRun(s);
    var rest := s[|w|..];
    if rest != [] {
      var t := TrimStart(rest);
      SplitOnSpacesChars(t);
      assert t == s[|s| - |t|..];
      CharsFromCons(w, SplitOnSpaces(t), t, s);
    } else {
      CharsFromCons(w, [], [], s);
    }
  }

  /** A non-empty run of white space. */
  predicate IsGap(g: string) {
    g != [] && forall i :: 0 <= i < |g| ==> IsSpace(g[i])
  }

  /** `parts[0] + gaps[0] + parts[1] + ... + gaps[n-2] + parts[n-1]`. */
  function Interleave(parts: seq<string>, gaps: seq<string>): string
    requires |parts| == |gaps| + 1
    decreases |gaps|
  {
    if gaps == [] then parts[0] else parts[0] + gaps[0] + Interleave(parts[1..], gaps[1..])
  }

  /** `s` is the pieces `parts` with the white-space runs `gaps` between them. */
  predicate SeparatedBy(s: string, parts: seq<string>, gaps: seq<string>) {
    && |parts| == |gaps| + 1
    && (forall k :: 0 <= k < |gaps| ==> IsGap(gaps[k]))
    && Interleave(parts, gaps) == s
  }

  /** Dropping a run of white space in front of a text that starts with none. */
  lemma {:induction false} TrimStartOfGap(g: string, r: string)
    requires forall i :: 0 <= i < |g| ==> IsSpace(g[i])
    requires r == [] || !IsSpace(r[0])
    ensures TrimStart(g + r) == r
    decreases |g|
  {
    if g == [] {
      assert g + r == r;
    } else {
      assert (g + r)[1..] == g[1..] + r;
      TrimStartOfGap(g[1..], r);
    }
  }

  /** Dropping a run of white space behind a text that ends with none. */
  lemma {:induction false} TrimEndOfGap(r: string, g: string)
    requires forall i :: 0 <= i < |g| ==> IsSpace(g[i])
    requires r == [] || !IsSpace(r[|r| - 1])
    ensures TrimEnd(r + g) == r
    decreases |g|
  {
    if g == [] {
      assert r + g == r;
    } else {
      var g' := g[..|g| - 1];
      assert (r + g)[..|r + g| - 1] == r + g';
      TrimEndOfGap(r, g');
    }
  }

  /** One more piece and gap in front. */
  lemma SeparatedCons(w: string, g: string, t: string, parts: seq<string>, gaps: seq<string>)
    requires SeparatedBy(t, parts, gaps) && IsGap(g)
    ensures SeparatedBy(w + g + t, [w] + parts, [g] + gaps)
  {
    assert ([w] + parts)[1..] == parts;
    assert ([g] + gaps)[1..] == gaps;
  }

  /** The white space `TrimStart` drops from a text starting with white space is a gap. */
  lemma LeadingGap(rest: string)
    requires rest != [] && IsSpace(rest[0])
    ensures var t := TrimStart(rest);
            IsGap(rest[..|rest| - |t|]) && rest == rest[..|rest| - |t|] + t
  {
    var t := TrimStart(rest);
    var n := |rest| - |t|;
    assert t == rest[n..];
    assert t == [] || t[0] != rest[0];
    assert t != rest;
    var g := rest[..n];
    forall i | 0 <= i < |g|
      ensures IsSpace(g[i])
    {
      assert g[i] == rest[i];
    }
    assert rest == g + rest[n..];
  }

  /** A text whose leading word is not all of it: the word, a gap, then the rest. */
  lemma WordGapRest(s: string)
    requires |NonSpaceRun(s)| < |s|
    ensures var w := NonSpaceRun(s);
            var rest := s[|w|..];
            var t := TrimStart(rest);
            var g := rest[..|rest| - |t|];
            s == w + g + t && IsGap(g)
  {
    var w := NonSpaceRun(s);
    var rest := s[|w|..];
    var t := TrimStart(rest);
    var g := rest[..|rest| - |t|];
    assert rest != [] && IsSpace(rest[0]) by {
      assert rest[0] == s[|w|];
    }
    LeadingGap(rest);
    assert s == w + rest;
    JoinThree(s, w, rest, g, t);
  }

  /** Regrouping `w + (g + t)`, kept apart so that `WordGapRest` need not unfold the slices it is given. */
  lemma JoinThree<T>(s: seq<T>, w: seq<T>, rest: seq<T>, g: seq<T>, t: seq<T>)
    requires s == w + rest && rest == g + t
    ensures s == w + g + t
  {
  }

  /** The split step: the leading word, the gap after it, then the pieces of the rest. */
  lemma SeparatedAfterWord(s: string, w: string, g: string, t: string, gaps: seq<string>)
    requires SplitOnSpaces(s) == [w] + SplitOnSpaces(t)
    requires s == w + g + t && IsGap(g)
    requires SeparatedBy(t, SplitOnSpaces(t), gaps)
    ensures SeparatedBy(s, SplitOnSpaces(s), [g] + gaps)
  {
    SeparatedCons(w, g, t, SplitOnSpaces(t), gaps);
  }

  /** A text that is one word is that one piece. */
  lemma OneWordSeparated(s: string)
    requires |NonSpaceRun(s)| == |s|
    ensures SeparatedBy(s, SplitOnSpaces(s), [])
  {
    assert SplitOnSpaces(s) == [s] by {
      assert s == NonSpaceRun(s);
      SplitOneWord(s);
    }
  }

  /** A text whose leading word is not all of it: the word, a gap, the rest, and the pieces of the rest after the word. */
  lemma WordStep(s: string)
    requires |NonSpaceRun(s)| < |s|
    ensures var w := NonSpaceRun(s);
            var rest := s[|w|..];
            var t := TrimStart(rest);
            var g := rest[..|rest| - |t|];
            && s == w + g + t && IsGap(g) && |t| < |s|
            && SplitOnSpaces(s) == [w] + SplitOnSpaces(t)
  {
    WordGapRest(s);
    SplitStep(s, NonSpaceRun(s));
  }

  /** Every text is its pieces with non-empty runs of white space between them. */
  lemma {:induction false} SplitOnSpacesSeparated(s: string)
    ensures exists gaps :: SeparatedBy(s, SplitOnSpaces(s), gaps)
    decreases |s|
  {
    var w := NonSpaceRun(s);
    if |w| == |s| {
      OneWordSeparated(s);
    } else {
      var rest := s[|w|..];
      var t := TrimStart(rest);
      var g := rest[..|rest| - |t|];
      WordStep(s);
      SplitOnSpacesSeparated(t);
      var gaps :| SeparatedBy(t, SplitOnSpaces(t), gaps);
      SeparatedAfterWord(s, w, g, t, gaps);
      assert SeparatedBy(s, SplitOnSpaces(s), [g] + gaps);
    }
  }

  /** A text of pieces starts with the first piece. */
  lemma InterleaveHead(parts: seq<string>, gaps: seq<string>)
    requires |parts| == |gaps| + 1 && parts[0] != []
    ensures Interleave(parts, gaps) != [] && Interleave(parts, gaps)[0] == parts[0][0]
  {
  }

  /** A word, a gap, then a text starting with a non-space: the word is the first piece. */
  lemma SplitAtGap(s: string, w: string, g: string, r: string)
    requires s == w + (g + r) && NoSpace(w) && IsGap(g)
    requires r != [] && !IsSpace(r[0])
    ensures SplitOnSpaces(s) == [w] + SplitOnSpaces(r)
  {
    NonSpaceRunOfWordThenSpace(w, g + r);
    assert s[|w|..] == g + r;
    TrimStartOfGap(g, r);
    SplitStep(s, w);
  }

  /** Taking off the first piece and gap leaves a separated text. */
  lemma SeparatedTail(s: string, parts: seq<string>, gaps: seq<string>)
    requires SeparatedBy(s, parts, gaps) && gaps != []
    ensures IsGap(gaps[0])
    ensures s == parts[0] + (gaps[0] + Interleave(parts[1..], gaps[1..]))
    ensures SeparatedBy(Interleave(parts[1..], gaps[1..]), parts[1..], gaps[1..])
  {
    assert forall k :: 0 <= k < |gaps[1..]| ==> gaps[1..][k] == gaps[k + 1];
  }

  /**
   * The converse: a text made of non-empty pieces free of white space, with
   * runs of white space between them, splits into exactly those pieces.
   */
  lemma {:induction false} SeparatedIsSplit(s: string, parts: seq<string>, gaps: seq<string>)
    requires SeparatedBy(s, parts, gaps)
    requires forall k :: 0 <= k < |parts| ==> parts[k] != [] && NoSpace(parts[k])
    ensures SplitOnSpaces(s) == parts
    decreases |gaps|
  {
    if gaps == [] {
      SplitOneWord(parts[0]);
    } else {
      var tail, tailGaps := parts[1..], gaps[1..];
      var r := Interleave(tail, tailGaps);
      SeparatedTail(s, parts, gaps);
      assert forall k :: 0 <= k < |tail| ==> tail[k] == parts[k + 1];
      InterleaveHead(tail, tailGaps);
      SplitAtGap(s, parts[0], gaps[0], r);
      SeparatedIsSplit(r, tail, tailGaps);
      assert parts == [parts[0]] + tail;
    }
  }

  /** The pieces of a command: `command.trim().toLowerCase().split(/\s+/)`. */
  function CommandParts(command: string): seq<string> {
    SplitOnSpaces(ToLower(Trim(command)))
  }

  lemma CommandPartsNoUpper(command: string)
    ensures forall k :: 0 <= k < |CommandParts(command)| ==> NoUpper(CommandParts(command)[k])
  {
    var lowered := ToLower(Trim(command));
    SplitOnSpacesChars(lowered);
    forall k, i | 0 <= k < |CommandParts(command)| && 0 <= i < |CommandParts(command)[k]|
      ensures !IsUpper(CommandParts(command)[k][i])
    {
      var c := CommandParts(command)[k][i];
      assert c in lowered;
    }
  }

  /**
   * The pieces of a command: free of white space, non-empty unless the
   * command is blank (then the one piece is ""), the first is the leading
   * word, consecutive pieces are separated by runs of white space, and
   * together they are the lower-cased command without its white space.
   */
  lemma CommandPartsSpec(command: string)
    ensures |CommandParts(command)| >= 1
    ensures CommandParts(command)[0] == NonSpaceRun(ToLower(Trim(command)))
    ensures exists gaps :: SeparatedBy(ToLower(Trim(command)), CommandParts(command), gaps)
    ensures AllNoSpace(CommandParts(command))
    ensures Concat(CommandParts(command)) == RemoveSpaces(ToLower(Trim(command)))
    ensures Trim(command) == [] <==> CommandParts(command) == [[]]
    ensures Trim(command) != [] ==> forall k :: 0 <= k < |CommandParts(command)| ==> CommandParts(command)[k] != []
  {
    var t := Trim(command);
    var lowered := ToLower(t);
    SplitOnSpacesNoSpace(lowered);
    SplitOnSpacesConcat(lowered);
    SplitOnSpacesSeparated(lowered);
    if t != [] {
      assert !IsSpace(TrimStart(command)[0]);
      assert !IsSpace(lowered[0]) && !IsSpace(lowered[|lowered| - 1]);
      SplitTrimmedHasNoEmptyPiece(lowered);
    }
  }

  /**
   * The pieces of a command are determined: any cut of the lowered, trimmed
   * command into non-empty white-space-free words at runs of white space is
   * the one `processCommand` reads.
   */
  lemma CommandPartsUnique(command: string, parts: seq<string>, gaps: seq<string>)
    requires SeparatedBy(ToLower(Trim(command)), parts, gaps)
    requires forall k :: 0 <= k < |parts| ==> parts[k] != [] && NoSpace(parts[k])
    ensures CommandParts(command) == parts
  {
    SeparatedIsSplit(ToLower(Trim(command)), parts, gaps);
  }

  /** A lower-cased character is white space exactly when the original is. */
  lemma ToLowerKeepsNoSpace(w: string)
    requires NoSpace(w)
    ensures NoSpace(ToLower(w)) && |ToLower(w)| == |w|
  {
  }

  /** One word with white space around it is that word, lower-cased: `  RESET ` is `reset`. */
  lemma CommandPartsOfPaddedWord(before: string, w: string, after: string)
    requires forall i :: 0 <= i < |before| ==> IsSpace(before[i])
    requires forall i :: 0 <= i < |after| ==> IsSpace(after[i])
    requires w != [] && NoSpace(w)
    ensures CommandParts(before + w + after) == [ToLower(w)]
  {
    var s := before + w + after;
    assert s == before + (w + after);
    TrimStartOfGap(before, w + after);
    TrimEndOfGap(w, after);
    assert Trim(s) == w;
    ToLowerKeepsNoSpace(w);
    SplitOneWord(ToLower(w));
  }

  /** A word alone is its own single piece. */
  lemma SplitOneWord(w: string)
    requires NoSpace(w)
    ensures SplitOnSpaces(w) == [w]
  {
    NonSpaceRunOfNoSpace(w);
  }

  lemma {:induction false} NonSpaceRunOfNoSpace(w: string)
    requires NoSpace(w)
    ensures NonSpaceRun(w) == w
    decreases |w|
  {
    if w != [] {
      NonSpaceRunOfNoSpace(w[1..]);
    }
  }

  lemma {:induction false} NonSpaceRunOfWordThenSpace(w: string, rest: string)
    requires NoSpace(w) && rest != [] && IsSpace(rest[0])
    ensures NonSpaceRun(w + rest) == w
    decreases |w|
  {
    if w != [] {
      assert (w + rest)[1..] == w[1..] + rest;
      NonSpaceRunOfWordThenSpace(w[1..], rest);
    }
  }

  lemma TrimOfUnspaced(s: string)
    requires s != [] && !IsSpace(s[0]) && !IsSpace(s[|s| - 1])
    ensures Trim(s) == s
  {
  }

  lemma ToLowerOfNoUpper(s: string)
    requires NoUpper(s)
    ensures ToLower(s) == s
  {
  }

  lemma SplitStep(s: string, w: string)
    requires NonSpaceRun(s) == w && |w| < |s|
    ensures SplitOnSpaces(s) == [w] + SplitOnSpaces(TrimStart(s[|w|..]))
  {
  }

  lemma TrimStartOfSpaceWord(b: string)
    requires b != [] && !IsSpace(b[0])
    ensures TrimStart(" " + b) == b
  {
    assert (" " + b)[1..] == b;
  }

  lemma SplitTwoWords(a: string, b: string)
    requires a != [] && b != [] && NoSpace(a) && NoSpace(b)
    ensures SplitOnSpaces(a + " " + b) == [a, b]
  {
    var s := a + " " + b;
    var rest := " " + b;
    assert s == a + rest;
    NonSpaceRunOfWordThenSpace(a, rest);
    assert s[|a|..] == rest;
    TrimStartOfSpaceWord(b);
    SplitStep(s, a);
    SplitOneWord(b);
  }

  /** Two words and one space between them make two pieces. */
  lemma CommandPartsOfTwoWords(a: string, b: string)
    requires a != [] && b != [] && NoSpace(a) && NoSpace(b) && NoUpper(a) && NoUpper(b)
    ensures CommandParts(a + " " + b) == [a, b]
  {
    var s := a + " " + b;
    assert s[0] == a[0] && s[|s| - 1] == b[|b| - 1];
    TrimOfUnspaced(s);
    assert NoUpper(s) by {
      forall i | 0 <= i < |s| ensures !IsUpper(s[i]) {
        if i < |a| {
          assert s[i] == a[i];
        } else if i > |a| {
          assert s[i] == b[i - |a| - 1];
        }
      }
    }
    ToLowerOfNoUpper(s);
    SplitTwoWords(a, b);
  }

  // ---------------------------------------------------------------------
  // parseFloat

  /** A finite decimal number: (-1)^negative * digits * 10^exponent. */
  datatype JsNumber = JsNumber(negative: bool, digits: nat, exponent: int)

  function Pow10(e: nat): (r: nat)
    ensures r >= 1
  {
    if e == 0 then 1 else 10 * Pow10(e - 1)
  }

  function NumberValue(n: JsNumber): real {
    var magnitude := if n.exponent >= 0 then (n.digits * Pow10(n.exponent)) as real
                     else n.digits as real / Pow10(-n.exponent) as real;
    if n.negative then -magnitude else magnitude
  }

  /** The longest prefix of `s` made of digits. */
  function DigitRun(s: string): (d: string)
    ensures |d| <= |s| && d == s[..|d|] && AllDigits(d)
    ensures |d| < |s| ==> !IsDigit(s[|d|])
    decreases |s|
  {
    if s == [] || !IsDigit(s[0]) then [] else [s[0]] + DigitRun(s[1..])
  }

  /**
   * The value of an exponent part `e[+-]digits` at the head of `s`, 0 if
   * there is none (`E` cannot occur: the text is lower-case).
   */
  function ExponentPart(s: string): int {
    if |s| >= 1 && s[0] == 'e' then
      var signed := s[1..];
      var negative := |signed| >= 1 && signed[0] == '-';
      var unsigned := if |signed| >= 1 && (signed[0] == '-' || signed[0] == '+') then signed[1..] else signed;
      var d := DigitRun(unsigned);
      if d == [] then 0 else if negative then 0 - DigitsValue(d) else DigitsValue(d)
    else 0
  }

  /**
   * `parseFloat` on text without upper-case letters: the longest prefix that
   * is a decimal literal, after leading white space; None stands for NaN.
   * Rounding to the nearest double is not modelled: the value is exact.
   */
  function ParseFloat(s: string): (r: Option<JsNumber>)
    requires NoUpper(s)
    ensures TrimStart(s) == [] ==> r.None?
    ensures TrimStart(s) != [] && !IsDigit(TrimStart(s)[0]) && TrimStart(s)[0] !in "+-." ==> r.None?
    ensures r.Some? ==> (r.value.negative <==> TrimStart(s)[0] == '-')
  {
    var t := TrimStart(s);
    var negative := |t| >= 1 && t[0] == '-';
    var body := if |t| >= 1 && (t[0] == '-' || t[0] == '+') then t[1..] else t;
    ParseUnsigned(negative, body)
  }

  /** The literal after its sign: digits, optionally a point and more digits, then an exponent part. */
  function ParseUnsigned(negative: bool, body: string): (r: Option<JsNumber>)
    ensures body == [] || (!IsDigit(body[0]) && body[0] != '.') ==> r.None?
    ensures r.Some? ==> body != [] && r.value.negative == negative
  {
    var whole := DigitRun(body);
    var afterWhole := body[|whole|..];
    var fraction := if |afterWhole| >= 1 && afterWhole[0] == '.' then DigitRun(afterWhole[1..]) else [];
    var afterNumber := if |afterWhole| >= 1 && afterWhole[0] == '.' then afterWhole[1 + |fraction|..] else afterWhole;
    if whole == [] && fraction == [] then None
    else
      AllDigitsAppend(whole, fraction);
      Some(JsNumber(negative, DigitsValue(whole + fraction), ExponentPart(afterNumber) - |fraction|))
  }

  lemma AllDigitsAppend(a: string, b: string)
    requires AllDigits(a) && AllDigits(b)
    ensures AllDigits(a + b)
  {
  }

  lemma {:induction false} DigitRunOfDigits(s: string)
    requires AllDigits(s)
    ensures DigitRun(s) == s
    decreases |s|
  {
    if s != [] {
      DigitRunOfDigits(s[1..]);
    }
  }

  lemma DigitsAreLowerWord(s: string)
    requires AllDigits(s)
    ensures NoUpper(s) && NoSpace(s)
  {
    forall i | 0 <= i < |s| ensures !IsUpper(s[i]) && !IsSpace(s[i]) {
      assert IsDigit(s[i]);
    }
  }

  /** `parseFloat` of a run of digits is the number they denote. */
  lemma ParseFloatOfDigits(s: string)
    requires s != [] && AllDigits(s)
    ensures NoUpper(s)
    ensures ParseFloat(s) == Some(JsNumber(false, DigitsValue(s), 0))
  {
    DigitsAreLowerWord(s);
    assert IsDigit(s[0]);
    assert TrimStart(s) == s by {
      assert !IsSpace(s[0]);
    }
    assert ParseFloat(s) == ParseUnsigned(false, s);
    UnsignedOfDigitsSigned(false, s);
  }

  lemma WholeValue(n: nat)
    ensures NumberValue(JsNumber(false, n, 0)) == n as real
  {
  }

  /** `parseFloat` reads the decimal text of a natural number back as that number. */
  lemma ParseFloatOfNat(n: nat)
    ensures NoUpper(NatToString(n))
    ensures ParseFloat(NatToString(n)) == Some(JsNumber(false, n, 0))
    ensures NumberValue(JsNumber(false, n, 0)) == n as real
  {
    var s := NatToString(n);
    assert NoUpper(s) && ParseFloat(s) == Some(JsNumber(false, DigitsValue(s), 0)) by {
      ParseFloatOfDigits(s);
    }
    assert DigitsValue(s) == n by {
      NatToStringRoundTrip(n);
    }
    WholeValue(n);
  }

  // ---------------------------------------------------------------------
  // Number to text

  function Zeros(k: nat): (z: string)
    ensures |z| == k && forall i :: 0 <= i < k ==> z[i] == '0'
  {
    seq(k, _ => '0')
  }

  /** The same number with the trailing zeros of its digits moved into the exponent. */
  function Normalize(n: JsNumber): (m: JsNumber)
    ensures m.negative == n.negative
    ensures m.digits == 0 <==> n.digits == 0
    ensures m.digits != 0 ==> m.digits % 10 != 0
    decreases n.digits
  {
    if n.digits != 0 && n.digits % 10 == 0 then Normalize(JsNumber(n.negative, n.digits / 10, n.exponent + 1)) else n
  }

  lemma {:induction false} Pow10Add(a: nat, b: nat)
    ensures Pow10(a + b) == Pow10(a) * Pow10(b)
    decreases a
  {
    if a > 0 {
      Pow10Add(a - 1, b);
    }
  }

  /** Moving one trailing zero into the exponent keeps the value. */
  lemma ShiftKeepsValue(negative: bool, d: nat, e: int)
    ensures NumberValue(JsNumber(negative, d * 10, e)) == NumberValue(JsNumber(negative, d, e + 1))
  {
    if e >= 0 {
      ShiftWhole(d, e);
    } else if e == -1 {
      assert Pow10(1) == 10;
      assert (d * 10) as real / 10.0 == d as real;
    } else {
      ShiftFraction(d, -(e + 1));
    }
  }

  lemma ShiftWhole(d: nat, e: nat)
    ensures d * 10 * Pow10(e) == d * Pow10(e + 1)
  {
    assert Pow10(e + 1) == 10 * Pow10(e);
    assert d * 10 * Pow10(e) == d * (10 * Pow10(e));
  }

  lemma ShiftFraction(d: nat, k: nat)
    ensures (d * 10) as real / Pow10(k + 1) as real == d as real / Pow10(k) as real
  {
    assert Pow10(k + 1) == 10 * Pow10(k);
    var p := Pow10(k) as real;
    assert (d * 10) as real / (10.0 * p) == d as real / p;
  }

  lemma {:induction false} NormalizeKeepsValue(n: JsNumber)
    ensures NumberValue(Normalize(n)) == NumberValue(n)
    decreases n.digits
  {
    if n.digits != 0 && n.digits % 10 == 0 {
      var m := JsNumber(n.negative, n.digits / 10, n.exponent + 1);
      ShiftKeepsValue(n.negative, n.digits / 10, n.exponent);
      assert n == JsNumber(n.negative, n.digits / 10 * 10, n.exponent);
      NormalizeKeepsValue(m);
    }
  }

  /** The digits of a non-zero number, with a point where its exponent puts one. */
  function UnsignedText(m: JsNumber): (u: string)
    requires m.digits != 0
    ensures u != [] && u != "0" && IsDigit(u[0])
  {
    var d := NatToString(m.digits);
    if m.exponent >= 0 then
      assert (d + Zeros(m.exponent))[0] == d[0];
      d + Zeros(m.exponent)
    else if |d| > -m.exponent then d[..|d| + m.exponent] + "." + d[|d| + m.exponent..]
    else "0" + "." + (Zeros(-m.exponent - |d|) + d)
  }

  /**
   * JavaScript's text of a finite number, written out in full: digits, then a
   * point and the fraction when there is one. Exponent notation (below 1e-6,
   * from 1e21) and rounding to 17 significant digits are not modelled.
   */
  function NumberToString(n: JsNumber): (text: string)
    ensures text != []
    ensures text == "0" <==> n.digits == 0
    ensures text[0] == '-' <==> n.negative && n.digits != 0
  {
    var m := Normalize(n);
    if m.digits == 0 then "0" else (if m.negative then "-" else "") + UnsignedText(m)
  }

  lemma NatToStringTimesTen(x: nat)
    requires x >= 1
    ensures NatToString(x * 10) == NatToString(x) + "0"
  {
    assert (x * 10) / 10 == x && (x * 10) % 10 == 0;
  }

  lemma {:induction false} NatToStringZeros(x: nat, e: nat)
    requires x >= 1
    ensures NatToString(x * Pow10(e)) == NatToString(x) + Zeros(e)
    decreases e
  {
    if e > 0 {
      var p := Pow10(e - 1);
      var y := x * p;
      NatToStringZeros(x, e - 1);
      assert y >= 1 by {
        assert p >= 1;
        MulPositive(x, p);
      }
      assert x * Pow10(e) == y * 10 by {
        assert Pow10(e) == 10 * p;
        MulShift(x, p);
      }
      NatToStringTimesTen(y);
      assert Zeros(e) == Zeros(e - 1) + "0";
    }
  }

  /** A product of positive factors is positive; the non-linear step in `NatToStringZeros`. */
  lemma MulPositive(x: nat, p: nat)
    requires x >= 1 && p >= 1
    ensures x * p >= 1
  {
  }

  /** Moving the factor ten outwards; the non-linear step in `NatToStringZeros`. */
  lemma MulShift(x: nat, p: nat)
    ensures x * (10 * p) == (x * p) * 10
  {
  }

  /** Normalizing a whole number keeps its value and only raises the exponent. */
  lemma {:induction false} NormalizeWhole(n: JsNumber)
    requires n.exponent >= 0
    ensures Normalize(n).exponent >= n.exponent
    ensures Normalize(n).digits * Pow10(Normalize(n).exponent) == n.digits * Pow10(n.exponent)
    decreases n.digits
  {
    if n.digits != 0 && n.digits % 10 == 0 {
      var m := JsNumber(n.negative, n.digits / 10, n.exponent + 1);
      assert Normalize(n) == Normalize(m);
      NormalizeWhole(m);
      assert m.digits * Pow10(m.exponent) == n.digits * Pow10(n.exponent) by {
        assert Pow10(m.exponent) == 10 * Pow10(n.exponent);
        assert n.digits == m.digits * 10;
        TenfoldShift(m.digits, Pow10(n.exponent));
      }
    }
  }

  /** Moving the factor ten between the digits and the power; the non-linear step in `NormalizeWhole`. */
  lemma TenfoldShift(q: int, p: int)
    ensures q * (10 * p) == (q * 10) * p
  {
  }

  /** A positive whole number is written as its plain decimal text. */
  lemma NumberToStringWhole(n: JsNumber)
    requires !n.negative && n.digits >= 1 && n.exponent >= 0
    ensures NumberToString(n) == NatToString(n.digits * Pow10(n.exponent))
  {
    NormalizeWhole(n);
    var m := Normalize(n);
    NatToStringZeros(m.digits, m.exponent);
  }

  // ---------------------------------------------------------------------
  // Printing then parsing

  /** A run of digits followed by a non-digit is the digit run of the whole. */
  lemma {:induction false} DigitRunPrefix(w: string, t: string)
    requires AllDigits(w) && (t == [] || !IsDigit(t[0]))
    ensures DigitRun(w + t) == w
    decreases |w|
  {
    if w == [] {
      assert w + t == t;
    } else {
      assert (w + t)[1..] == w[1..] + t;
      DigitRunPrefix(w[1..], t);
    }
  }

  lemma {:induction false} DigitsValueAppend(a: string, b: string)
    requires AllDigits(a) && AllDigits(b)
    ensures AllDigits(a + b)
    ensures DigitsValue(a + b) == DigitsValue(a) * Pow10(|b|) + DigitsValue(b)
    decreases |b|
  {
    if b == [] {
      assert a + b == a;
    } else {
      var b' := b[..|b| - 1];
      var last := b[|b| - 1];
      assert (a + b)[..|a + b| - 1] == a + b';
      assert (a + b)[|a + b| - 1] == last;
      DigitsValueAppend(a, b');
      assert DigitsValue(a + b) == DigitsValue(a + b') * 10 + DigitValue(last);
      assert DigitsValue(b) == DigitsValue(b') * 10 + DigitValue(last);
      assert Pow10(|b|) == 10 * Pow10(|b'|);
      ShiftInDigit(DigitsValue(a), DigitsValue(b'), Pow10(|b'|), DigitValue(last));
    }
  }

  /** Appending a digit to `x` followed by `y` in p places: the arithmetic step. */
  lemma ShiftInDigit(x: int, y: int, p: int, c: int)
    ensures (x * p + y) * 10 + c == x * (10 * p) + (y * 10 + c)
  {
    assert (x * p + y) * 10 == x * p * 10 + y * 10;
    assert x * p * 10 == x * (10 * p);
  }

  lemma {:induction false} DigitsValueZeros(k: nat)
    ensures AllDigits(Zeros(k)) && DigitsValue(Zeros(k)) == 0
    decreases k
  {
    if k > 0 {
      assert Zeros(k)[..k - 1] == Zeros(k - 1);
      DigitsValueZeros(k - 1);
    }
  }

  lemma PointedWhole(w: string, f: string)
    requires AllDigits(w)
    ensures DigitRun(w + "." + f) == w && (w + "." + f)[|w|..] == "." + f
  {
    assert w + "." + f == w + ("." + f);
    DigitRunPrefix(w, "." + f);
  }

  lemma PointedFraction(f: string)
    requires AllDigits(f)
    ensures var after := "." + f;
            |after| >= 1 && after[0] == '.' && DigitRun(after[1..]) == f && after[1 + |f|..] == []
  {
    assert ("." + f)[1..] == f;
    DigitRunOfDigits(f);
  }

  /** `whole.fraction` with digits on both sides reads as one run of digits scaled down by the fraction. */
  lemma UnsignedOfPointed(negative: bool, w: string, f: string)
    requires AllDigits(w) && AllDigits(f) && w != []
    ensures AllDigits(w + f)
    ensures ParseUnsigned(negative, w + "." + f) == Some(JsNumber(negative, DigitsValue(w + f), 0 - |f|))
  {
    PointedWhole(w, f);
    PointedFraction(f);
    AllDigitsAppend(w, f);
  }

  lemma UnsignedOfDigitsSigned(negative: bool, s: string)
    requires s != [] && AllDigits(s)
    ensures ParseUnsigned(negative, s) == Some(JsNumber(negative, DigitsValue(s), 0))
  {
    DigitRunOfDigits(s);
    assert s[|s|..] == [];
    assert s + [] == s;
  }

  /** An optional minus sign in front of text that starts with a digit. */
  lemma ParseSigned(negative: bool, u: string)
    requires u != [] && IsDigit(u[0]) && NoUpper(u)
    ensures NoUpper((if negative then "-" else "") + u)
    ensures ParseFloat((if negative then "-" else "") + u) == ParseUnsigned(negative, u)
  {
    var t := (if negative then "-" else "") + u;
    assert !IsSpace(t[0]);
    assert TrimStart(t) == t;
    if negative {
      assert t[1..] == u;
    } else {
      assert t == u;
    }
  }

  lemma WholeTextReadsBack(m: JsNumber)
    requires m.digits != 0 && m.exponent >= 0
    ensures NoUpper(UnsignedText(m))
    ensures ParseUnsigned(m.negative, UnsignedText(m)) == Some(JsNumber(m.negative, m.digits * Pow10(m.exponent), 0))
  {
    var u := UnsignedText(m);
    NatToStringZeros(m.digits, m.exponent);
    var whole := m.digits * Pow10(m.exponent);
    assert u == NatToString(whole);
    NatToStringRoundTrip(whole);
    DigitsAreLowerWord(u);
    UnsignedOfDigitsSigned(m.negative, u);
  }

  /** Digits on both sides of a point contain no upper-case letter. */
  lemma NoUpperPointed(w: string, f: string)
    requires AllDigits(w) && AllDigits(f)
    ensures NoUpper(w + "." + f)
  {
    NoUpperOfNumberChars(w + "." + f);
  }

  /** A run of digits cut in two around its k-th character. */
  lemma DigitsCut(d: string, k: nat)
    requires AllDigits(d) && k <= |d|
    ensures AllDigits(d[..k]) && AllDigits(d[k..]) && d[..k] + d[k..] == d
  {
    assert forall i :: 0 <= i < k ==> d[..k][i] == d[i];
    assert forall i :: 0 <= i < |d| - k ==> d[k..][i] == d[k + i];
  }

  lemma PointedReadsBack(negative: bool, d: string, k: nat)
    requires AllDigits(d) && 0 < k < |d|
    ensures ParseUnsigned(negative, d[..k] + "." + d[k..]) == Some(JsNumber(negative, DigitsValue(d), k - |d|))
  {
    DigitsCut(d, k);
    UnsignedOfPointed(negative, d[..k], d[k..]);
  }

  lemma PointTextReadsBack(m: JsNumber)
    requires m.digits != 0 && m.exponent < 0 && |NatToString(m.digits)| > -m.exponent
    ensures NoUpper(UnsignedText(m))
    ensures ParseUnsigned(m.negative, UnsignedText(m)) == Some(m)
  {
    var d := NatToString(m.digits);
    var k := |d| + m.exponent;
    assert NoUpper(UnsignedText(m)) by {
      DigitsCut(d, k);
      NoUpperPointed(d[..k], d[k..]);
    }
    assert ParseUnsigned(m.negative, UnsignedText(m)) == Some(JsNumber(m.negative, DigitsValue(d), k - |d|)) by {
      PointedReadsBack(m.negative, d, k);
    }
    NatToStringRoundTrip(m.digits);
  }

  /** Leading zeros add nothing to the value of a run of digits. */
  lemma LeadingZerosValue(z: nat, d: string)
    requires AllDigits(d)
    ensures AllDigits(Zeros(z) + d) && DigitsValue(Zeros(z) + d) == DigitsValue(d)
  {
    DigitsValueZeros(z);
    DigitsValueAppend(Zeros(z), d);
  }

  /** `0.fraction` reads as the fraction's digits scaled down by their count. */
  lemma ZeroPointed(negative: bool, f: string)
    requires AllDigits(f)
    ensures ParseUnsigned(negative, "0" + "." + f) == Some(JsNumber(negative, DigitsValue(f), 0 - |f|))
  {
    LeadingZerosValue(1, f);
    assert Zeros(1) == "0";
    UnsignedOfPointed(negative, "0", f);
  }

  /** `0.` then a run of digits reads back as their value scaled down by their count. */
  lemma SmallPointed(negative: bool, f: string, n: nat, places: nat)
    requires AllDigits(f) && DigitsValue(f) == n && |f| == places
    ensures NoUpper("0" + "." + f)
    ensures ParseUnsigned(negative, "0" + "." + f) == Some(JsNumber(negative, n, 0 - places))
  {
    NoUpperPointed("0", f);
    var number := JsNumber(negative, n, 0 - places);
    assert JsNumber(negative, DigitsValue(f), 0 - |f|) == number;
    ZeroPointed(negative, f);
  }

  lemma SmallTextReadsBack(m: JsNumber)
    requires m.digits != 0 && m.exponent < 0 && |NatToString(m.digits)| <= -m.exponent
    ensures NoUpper(UnsignedText(m))
    ensures ParseUnsigned(m.negative, UnsignedText(m)) == Some(m)
  {
    var d := NatToString(m.digits);
    var f := Zeros(-m.exponent - |d|) + d;
    SmallTextDigits(m);
    SmallAt(m.negative, UnsignedText(m), f, m.digits, -m.exponent);
    assert JsNumber(m.negative, m.digits, 0 - -m.exponent) == m;
  }

  /** The fraction of the small text: zeros, then the digits, as many as the exponent says. */
  lemma SmallTextDigits(m: JsNumber)
    requires m.digits != 0 && m.exponent < 0 && |NatToString(m.digits)| <= -m.exponent
    ensures var d := NatToString(m.digits);
            var f := Zeros(-m.exponent - |d|) + d;
            && UnsignedText(m) == "0" + "." + f
            && AllDigits(f) && DigitsValue(f) == m.digits && |f| == -m.exponent
  {
    var d := NatToString(m.digits);
    NatToStringRoundTrip(m.digits);
    LeadingZerosValue(-m.exponent - |d|, d);
  }

  lemma SmallAt(negative: bool, u: string, f: string, n: nat, places: nat)
    requires u == "0" + "." + f
    requires AllDigits(f) && DigitsValue(f) == n && |f| == places
    ensures NoUpper(u)
    ensures ParseUnsigned(negative, u) == Some(JsNumber(negative, n, 0 - places))
  {
    SmallPointed(negative, f, n, places);
  }

  /** The unsigned text of a non-zero number parses to a number of the same value. */
  lemma UnsignedTextReadsBack(m: JsNumber)
    requires m.digits != 0
    ensures NoUpper(UnsignedText(m))
    ensures ParseUnsigned(m.negative, UnsignedText(m)).Some?
    ensures NumberValue(ParseUnsigned(m.negative, UnsignedText(m)).value) == NumberValue(m)
  {
    if m.exponent >= 0 {
      WholeTextReadsBack(m);
      assert Pow10(0) == 1;
    } else if |NatToString(m.digits)| > -m.exponent {
      PointTextReadsBack(m);
    } else {
      SmallTextReadsBack(m);
    }
  }

  /** Digits and a point contain no upper-case letter. */
  lemma NoUpperOfNumberChars(u: string)
    requires forall i :: 0 <= i < |u| ==> IsDigit(u[i]) || u[i] == '.'
    ensures NoUpper(u)
  {
  }

  /**
   * The text of any number reads back under `parseFloat` as a number of the
   * same value: the reply to `timer <minutes>` shows the minutes used.
   */
  lemma NumberToStringReadsBack(n: JsNumber)
    ensures NoUpper(NumberToString(n))
    ensures ParseFloat(NumberToString(n)).Some?
    ensures NumberValue(ParseFloat(NumberToString(n)).value) == NumberValue(n)
  {
    var m := Normalize(n);
    NormalizeKeepsValue(n);
    if m.digits == 0 {
      assert NumberToString(n) == NatToString(0);
      ParseFloatOfNat(0);
      assert NumberValue(m) == 0.0;
    } else {
      UnsignedTextReadsBack(m);
      ParseSigned(m.negative, UnsignedText(m));
    }
  }
}
