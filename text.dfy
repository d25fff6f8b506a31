/** The text normalizer of the cleaning stage: trim, collapse runs of
    whitespace to one space, lowercase, and map the recognised null tokens
    to missing. Strings are sequences of characters; whitespace and case
    are the ASCII ones. */
module Text {
  import opened Options

  /** The spellings that mean "no value" once a cell is canonical. */
  const NULL_TOKENS: set<string> := {
    "", "none", "n/a", "na", "null", "unknown", "undefined",
    "not available", "not applicable"
  }

  /** The ASCII characters that Python's `str.isspace` accepts: these are
      what both `str.strip()` and the regular expression `\s` match. */
  predicate IsSpace(c: char) {
    c == ' ' || c == '\t' || c == '\n' || c == '\r' || c == '\U{000B}' || c == '\U{000C}'
    || ('\U{001C}' <= c <= '\U{001F}')
  }

  predicate IsUpper(c: char) {
    'A' <= c <= 'Z'
  }

  function LowerChar(c: char): char {
    if IsUpper(c) then (c as int - 'A' as int + 'a' as int) as char else c
  }

  /** `str.lower()`, on the ASCII letters. */
  function Lower(s: string): string {
    seq(|s|, i requires 0 <= i < |s| => LowerChar(s[i]))
  }

  /** Drops leading whitespace: what is left is a suffix, everything
      dropped is whitespace, and what is left does not start with
      whitespace (so it is empty only when the input is all whitespace). */
  function TrimStart(s: string): (r: string)
    ensures |r| <= |s| && r == s[|s| - |r|..]
    ensures forall i :: 0 <= i < |s| - |r| ==> IsSpace(s[i])
    ensures r == [] || !IsSpace(r[0])
    ensures r == [] && s != [] ==> IsSpace(s[|s| - 1])
  {
    if s != [] && IsSpace(s[0]) then TrimStart(s[1..]) else s
  }

  /** Drops trailing whitespace: what is left is a prefix, everything
      dropped is whitespace, and what is left does not end with whitespace
      (so it is empty only when the input is all whitespace). */
  function TrimEnd(s: string): (r: string)
    ensures |r| <= |s| && r == s[..|r|]
    ensures forall i :: |r| <= i < |s| ==> IsSpace(s[i])
    ensures r == [] || !IsSpace(r[|r| - 1])
    ensures r == [] && s != [] ==> IsSpace(s[0])
  {
    if s != [] && IsSpace(s[|s| - 1]) then TrimEnd(s[..|s| - 1]) else s
  }

  /** `r` is the slice of `s` that starts at `i`, and `s` holds only
      whitespace before and after it. */
  predicate Bordered(s: string, i: int, r: string) {
    && 0 <= i <= |s| - |r| && r == s[i..i + |r|]
    && (forall k :: 0 <= k < i ==> IsSpace(s[k]))
    && (forall k :: i + |r| <= k < |s| ==> IsSpace(s[k]))
  }

  /** `str.strip()`: a slice of the input with only whitespace outside
      it, and no whitespace at either of its own ends. */
  function Strip(s: string): (r: string)
    ensures exists i :: Bordered(s, i, r)
    ensures r == [] || (!IsSpace(r[0]) && !IsSpace(r[|r| - 1]))
  {
    StripBordered(s);
    TrimEnd(TrimStart(s))
  }

  lemma StripBordered(s: string)
    ensures Bordered(s, |s| - |TrimStart(s)|, TrimEnd(TrimStart(s)))
  {
    var t := TrimStart(s);
    TrimsBordered(s, t, TrimEnd(t));
  }

  /** Trimming each end in turn leaves a slice bordered by whitespace. */
  lemma TrimsBordered(s: string, t: string, r: string)
    requires |t| <= |s| && t == s[|s| - |t|..]
    requires forall k :: 0 <= k < |s| - |t| ==> IsSpace(s[k])
    requires |r| <= |t| && r == t[..|r|]
    requires forall k :: |r| <= k < |t| ==> IsSpace(t[k])
    ensures Bordered(s, |s| - |t|, r)
  {
    var i := |s| - |t|;
    assert r == s[i..i + |r|];
    forall k | i + |r| <= k < |s| ensures IsSpace(s[k]) {
      assert s[k] == t[k - i];
    }
  }

  /** No whitespace but the plain space, and never two spaces in a row. */
  predicate SingleSpaced(t: string) {
    && (forall i :: 0 <= i < |t| ==> IsSpace(t[i]) ==> t[i] == ' ')
    && (forall i :: 0 <= i < |t| - 1 ==> !(t[i] == ' ' && t[i + 1] == ' '))
  }

  /** `re.sub(r"\s+", " ", s)`: every maximal run of whitespace becomes one
      space. */
  function Collapse(s: string): string
    decreases |s|
  {
    if s == [] then []
    else if IsSpace(s[0]) then [' '] + Collapse(TrimStart(s))
    else [s[0]] + Collapse(s[1..])
  }

  /** The collapsed string is empty exactly when the input is, and it
      starts with a space exactly when the input starts with whitespace. */
  lemma CollapseFirst(s: string)
    ensures |Collapse(s)| == 0 <==> |s| == 0
    ensures |Collapse(s)| > 0 ==> (Collapse(s)[0] == ' ' <==> IsSpace(s[0]))
  {
  }

  /** The collapsed string ends with a space exactly when the input ends
      with whitespace. */
  lemma {:induction false} CollapseLast(s: string)
    requires s != []
    ensures |Collapse(s)| > 0 && (Collapse(s)[|Collapse(s)| - 1] == ' ' <==> IsSpace(s[|s| - 1]))
    decreases |s|
  {
    if IsSpace(s[0]) {
      var t := TrimStart(s);
      if t != [] {
        CollapseLast(t);
        assert t[|t| - 1] == s[|s| - 1];
      }
    } else if |s| > 1 {
      CollapseLast(s[1..]);
    }
  }

  lemma CollapseEnds(s: string)
    ensures |Collapse(s)| == 0 <==> |s| == 0
    ensures |Collapse(s)| > 0 ==> (Collapse(s)[0] == ' ' <==> IsSpace(s[0]))
    ensures |Collapse(s)| > 0 ==> (Collapse(s)[|Collapse(s)| - 1] == ' ' <==> IsSpace(s[|s| - 1]))
  {
    CollapseFirst(s);
    if s != [] {
      CollapseLast(s);
    }
  }

  lemma SingleSpacedCons(c: char, t: string)
    requires SingleSpaced(t)
    requires IsSpace(c) ==> c == ' '
    requires c == ' ' && t != [] ==> t[0] != ' '
    ensures SingleSpaced([c] + t)
  {
    var u := [c] + t;
    forall i | 0 <= i < |u| - 1 ensures !(u[i] == ' ' && u[i + 1] == ' ') {
      if i > 0 {
        assert u[i] == t[i - 1] && u[i + 1] == t[i];
      }
    }
  }

  /** The collapsed string is single-spaced. */
  lemma {:induction false} CollapseShape(s: string)
    ensures SingleSpaced(Collapse(s))
    decreases |s|
  {
    if s == [] {
    } else if IsSpace(s[0]) {
      var t := TrimStart(s);
      CollapseShape(t);
      CollapseEnds(t);
      SingleSpacedCons(' ', Collapse(t));
    } else {
      CollapseShape(s[1..]);
      SingleSpacedCons(s[0], Collapse(s[1..]));
    }
  }

  /** The shape every present normalized value has: trimmed, single-spaced
      and without upper-case letters. */
  predicate IsCanonical(t: string) {
    && SingleSpaced(t)
    && (forall i :: 0 <= i < |t| ==> !IsUpper(t[i]))
    && (|t| > 0 ==> t[0] != ' ' && t[|t| - 1] != ' ')
  }

  /** Lowercasing keeps whitespace where it is and removes every upper-case
      letter. */
  lemma LowerKeepsSpacing(s: string)
    ensures SingleSpaced(s) ==> SingleSpaced(Lower(s))
    ensures |Lower(s)| == |s|
    ensures forall i :: 0 <= i < |s| ==> !IsUpper(Lower(s)[i]) && (Lower(s)[i] == ' ' <==> s[i] == ' ')
  {
  }

  /** The strip, collapse and lowercase chain of the normalizer. */
  function Canonical(s: string): (t: string)
    ensures IsCanonical(t)
  {
    var c := Collapse(Strip(s));
    CollapseShape(Strip(s));
    CollapseEnds(Strip(s));
    LowerKeepsSpacing(c);
    Lower(c)
  }

  /** `normalize_text_series` on one cell: missing stays missing, and a
      value whose canonical form is a null token becomes missing. */
  function Normalize(v: Option<string>): (r: Option<string>)
    ensures v.None? ==> r.None?
    ensures r.Some? ==> IsCanonical(r.value) && r.value !in NULL_TOKENS
  {
    match v
    case None => None
    case Some(s) =>
      var t := Canonical(s);
      if t in NULL_TOKENS then None else Some(t)
  }

  // ---------------------------------------------------------------------
  // Idempotence

  lemma SingleSpacedTail(t: string)
    requires t != [] && SingleSpaced(t)
    ensures SingleSpaced(t[1..])
    ensures t[0] == ' ' ==> t[1..] == [] || !IsSpace(t[1..][0])
  {
    if t[0] == ' ' && |t| > 1 {
      assert !(t[0] == ' ' && t[1] == ' ');
    }
  }

  lemma {:induction false} CollapseSingleSpaced(t: string)
    requires SingleSpaced(t)
    ensures Collapse(t) == t
    decreases |t|
  {
    if t != [] {
      SingleSpacedTail(t);
      CollapseSingleSpaced(t[1..]);
      if IsSpace(t[0]) {
        assert TrimStart(t) == TrimStart(t[1..]) == t[1..];
      }
    }
  }

  /** A canonical string is left alone by every step of the chain. */
  lemma CanonicalFixpoint(t: string)
    requires IsCanonical(t)
    ensures Canonical(t) == t
  {
    assert TrimStart(t) == t;
    assert TrimEnd(t) == t;
    CollapseSingleSpaced(t);
    assert Lower(t) == t;
  }

  /** Normalizing twice is normalizing once. */
  lemma NormalizeIdempotent(v: Option<string>)
    ensures Normalize(Normalize(v)) == Normalize(v)
  {
    var r := Normalize(v);
    if r.Some? {
      CanonicalFixpoint(r.value);
    }
  }

  /** A value that is already canonical and not a null token is a fixed
      point of the normalizer. */
  lemma NormalizeKeepsCanonical(t: string)
    requires IsCanonical(t) && t !in NULL_TOKENS
    ensures Normalize(Some(t)) == Some(t)
  {
    CanonicalFixpoint(t);
  }

  // ---------------------------------------------------------------------
  // Null-token closure under padding and casing

  predicate AllSpace(w: string) {
    forall i :: 0 <= i < |w| ==> IsSpace(w[i])
  }

  lemma {:induction false} TrimStartPadded(w: string, s: string)
    requires AllSpace(w)
    ensures TrimStart(w + s) == TrimStart(s)
    decreases |w|
  {
    if w == [] {
      assert w + s == s;
    } else {
      assert (w + s)[0] == w[0];
      assert (w + s)[1..] == w[1..] + s;
      TrimStartPadded(w[1..], s);
    }
  }

  lemma {:induction false} TrimEndPadded(s: string, w: string)
    requires AllSpace(w)
    ensures TrimEnd(s + w) == TrimEnd(s)
    decreases |w|
  {
    if w == [] {
      assert s + w == s;
    } else {
      var n := |w| - 1;
      assert (s + w)[|s + w| - 1] == w[n];
      assert (s + w)[..|s + w| - 1] == s + w[..n];
      TrimEndPadded(s, w[..n]);
    }
  }

  lemma {:induction false} TrimStartAppend(s: string, w: string)
    requires AllSpace(w)
    ensures TrimStart(s + w) == if TrimStart(s) == [] then [] else TrimStart(s) + w
    decreases |s|
  {
    if s == [] {
      TrimStartPadded(w, []);
      assert w + [] == w;
    } else if IsSpace(s[0]) {
      assert (s + w)[0] == s[0];
      assert (s + w)[1..] == s[1..] + w;
      assert TrimStart(s + w) == TrimStart(s[1..] + w);
      assert TrimStart(s) == TrimStart(s[1..]);
      TrimStartAppend(s[1..], w);
    } else {
      assert (s + w)[0] == s[0];
      assert TrimStart(s + w) == s + w;
    }
  }

  /** Whitespace around a value does not change its stripped form. */
  lemma StripPadded(w1: string, s: string, w2: string)
    requires AllSpace(w1) && AllSpace(w2)
    ensures Strip(w1 + s + w2) == Strip(s)
  {
    assert w1 + s + w2 == w1 + (s + w2);
    TrimStartPadded(w1, s + w2);
    assert TrimStart(w1 + (s + w2)) == TrimStart(s + w2);
    TrimStartAppend(s, w2);
    if TrimStart(s) != [] {
      TrimEndPadded(TrimStart(s), w2);
    }
  }

  lemma LowerTail(s: string)
    requires s != []
    ensures Lower(s)[1..] == Lower(s[1..])
    ensures Lower(s)[..|s| - 1] == Lower(s[..|s| - 1])
  {
  }

  lemma TrimStartLowerStep(s: string)
    requires s != [] && IsSpace(s[0])
    requires TrimStart(Lower(s[1..])) == Lower(TrimStart(s[1..]))
    ensures TrimStart(Lower(s)) == Lower(TrimStart(s))
  {
    LowerTail(s);
    assert IsSpace(Lower(s)[0]);
  }

  lemma {:induction false} TrimStartLower(s: string)
    ensures TrimStart(Lower(s)) == Lower(TrimStart(s))
    decreases |s|
  {
    if s != [] && IsSpace(s[0]) {
      TrimStartLower(s[1..]);
      TrimStartLowerStep(s);
    } else if s != [] {
      assert !IsSpace(Lower(s)[0]);
    }
  }

  lemma TrimEndLowerStep(s: string)
    requires s != [] && IsSpace(s[|s| - 1])
    requires TrimEnd(Lower(s[..|s| - 1])) == Lower(TrimEnd(s[..|s| - 1]))
    ensures TrimEnd(Lower(s)) == Lower(TrimEnd(s))
  {
    LowerTail(s);
    assert IsSpace(Lower(s)[|s| - 1]);
  }

  lemma {:induction false} TrimEndLower(s: string)
    ensures TrimEnd(Lower(s)) == Lower(TrimEnd(s))
    decreases |s|
  {
    if s != [] && IsSpace(s[|s| - 1]) {
      TrimEndLower(s[..|s| - 1]);
      TrimEndLowerStep(s);
    } else if s != [] {
      assert !IsSpace(Lower(s)[|s| - 1]);
    }
  }

  lemma LowerConcat(a: string, b: string)
    ensures Lower(a + b) == Lower(a) + Lower(b)
  {
  }

  lemma CollapseSpaceHead(u: string)
    requires u != [] && IsSpace(u[0])
    ensures Collapse(u) == [' '] + Collapse(TrimStart(u))
  {
  }

  lemma LowerHeadSpace(s: string)
    requires s != [] && IsSpace(s[0])
    ensures Lower(s) != [] && IsSpace(Lower(s)[0])
  {
  }

  lemma LowerConsSpace(x: string)
    ensures Lower([' '] + x) == [' '] + Lower(x)
  {
  }

  lemma CollapseLowerSpace(s: string)
    requires s != [] && IsSpace(s[0])
    requires Collapse(Lower(TrimStart(s))) == Lower(Collapse(TrimStart(s)))
    ensures Collapse(Lower(s)) == Lower(Collapse(s))
  {
    var t := TrimStart(s);
    LowerHeadSpace(s);
    CollapseSpaceHead(Lower(s));
    TrimStartLower(s);
    CollapseSpaceHead(s);
    LowerConsSpace(Collapse(t));
  }

  lemma CollapseLowerWord(s: string)
    requires s != [] && !IsSpace(s[0])
    requires Collapse(Lower(s[1..])) == Lower(Collapse(s[1..]))
    ensures Collapse(Lower(s)) == Lower(Collapse(s))
  {
    var ls := Lower(s);
    assert !IsSpace(ls[0]);
    LowerTail(s);
    LowerConcat([s[0]], Collapse(s[1..]));
  }

  lemma {:induction false} CollapseLower(s: string)
    ensures Collapse(Lower(s)) == Lower(Collapse(s))
    decreases |s|
  {
    if s != [] {
      if IsSpace(s[0]) {
        CollapseLower(TrimStart(s));
        CollapseLowerSpace(s);
      } else {
        CollapseLower(s[1..]);
        CollapseLowerWord(s);
      }
    }
  }

  lemma StripLower(s: string)
    ensures Strip(Lower(s)) == Lower(Strip(s))
  {
    TrimStartLower(s);
    TrimEndLower(TrimStart(s));
  }

  lemma LowerIdempotent(x: string)
    ensures Lower(Lower(x)) == Lower(x)
  {
  }

  /** The canonical form does not depend on the letter case of the input. */
  lemma CanonicalIgnoresCase(s: string)
    ensures Canonical(Lower(s)) == Canonical(s)
  {
    StripLower(s);
    CollapseLower(Strip(s));
    LowerIdempotent(Collapse(Strip(s)));
  }

  /** No whitespace and no upper-case letter: canonical. */
  lemma LowerWordIsCanonical(t: string)
    requires forall i :: 0 <= i < |t| ==> !IsSpace(t[i]) && !IsUpper(t[i])
    ensures IsCanonical(t)
  {
  }

  lemma NullTokensAreCanonical(t: string)
    requires t in NULL_TOKENS
    ensures IsCanonical(t)
  {
    if t == "not available" || t == "not applicable" {
      assert t[3] == ' ';
      assert forall i :: 0 <= i < |t| && i != 3 ==> !IsSpace(t[i]) && !IsUpper(t[i]);
    } else {
      assert t in {"", "none", "n/a", "na", "null", "unknown", "undefined"};
      LowerWordIsCanonical(t);
    }
  }

  /** Every null token, in any letter case, with any whitespace around it
      and any run of whitespace between its words, normalizes to missing. */
  lemma NullTokenVariant(w1: string, s: string, w2: string)
    requires AllSpace(w1) && AllSpace(w2)
    requires Lower(Collapse(s)) in NULL_TOKENS
    ensures Normalize(Some(w1 + s + w2)) == None
  {
    var c := Collapse(s);
    var tok := Lower(c);
    NullTokensAreCanonical(tok);
    CollapseEnds(s);
    if s != [] {
      assert tok[0] == LowerChar(c[0]) && tok[|tok| - 1] == LowerChar(c[|c| - 1]);
      assert !IsSpace(s[0]) && !IsSpace(s[|s| - 1]);
    }
    assert Strip(s) == s;
    StripPadded(w1, s, w2);
  }

  lemma {:induction false} CollapseWord(a: string, rest: string)
    requires forall i :: 0 <= i < |a| ==> !IsSpace(a[i])
    ensures Collapse(a + rest) == a + Collapse(rest)
    decreases |a|
  {
    if a == [] {
      assert a + rest == rest;
    } else {
      assert (a + rest)[1..] == a[1..] + rest;
      CollapseWord(a[1..], rest);
    }
  }

  lemma CollapseGap(w: string, b: string)
    requires w != [] && AllSpace(w)
    requires b == [] || !IsSpace(b[0])
    ensures Collapse(w + b) == [' '] + Collapse(b)
  {
    assert (w + b)[0] == w[0];
    TrimStartPadded(w, b);
  }

  /** A padded, upper-case null token is missing after normalization. */
  lemma NormalizeNullExample()
    ensures Normalize(Some("  N/A ")) == None
  {
    assert "  N/A " == "  " + "N/A" + " ";
    CollapseSingleSpaced("N/A");
    assert Lower("N/A") == "n/a";
    NullTokenVariant("  ", "N/A", " ");
  }

  /** A two-word null token with a tab-and-space gap and capitals is
      missing after normalization. */
  lemma NormalizeInnerGapExample()
    ensures Normalize(Some("Not \t Available")) == None
  {
    var s := "Not \t Available";
    InnerGapCollapse(s);
    InnerGapLower(Collapse(s));
    NullTokenVariant([], s, []);
    assert [] + s + [] == s;
  }

  lemma InnerGapPieces(s: string)
    requires s == "Not \t Available"
    ensures s == "Not" + " \t " + "Available"
    ensures "Not" + [' '] + "Available" == "Not Available"
  {
  }

  lemma InnerGapWords()
    ensures IsWord("Not") && IsWord("Available") && AllSpace(" \t ")
  {
  }

  lemma InnerGapCollapse(s: string)
    requires s == "Not \t Available"
    ensures Collapse(s) == "Not Available"
  {
    InnerGapPieces(s);
    InnerGapWords();
    CollapseWord("Available", []);
    assert "Available" + [] == "Available";
    WordGap("Not", " \t ", "Available");
  }

  lemma InnerGapLower(t: string)
    requires t == "Not Available"
    ensures Lower(t) == "not available"
  {
  }

  predicate IsWord(a: string) {
    a != [] && forall i :: 0 <= i < |a| ==> !IsSpace(a[i])
  }

  lemma WordGap(a: string, w: string, rest: string)
    requires IsWord(a) && w != [] && AllSpace(w)
    requires rest == [] || !IsSpace(rest[0])
    ensures Collapse(a + w + rest) == a + [' '] + Collapse(rest)
  {
    var t, c := w + rest, Collapse(rest);
    assert a + w + rest == a + t;
    CollapseWord(a, t);
    CollapseGap(w, rest);
    assert a + ([' '] + c) == a + [' '] + c;
  }

  /** Three words separated by runs of whitespace collapse to three words
      separated by single spaces. */
  lemma CollapseThreeWords(a: string, w1: string, b: string, w2: string, c: string)
    requires IsWord(a) && IsWord(b) && IsWord(c)
    requires w1 != [] && AllSpace(w1) && w2 != [] && AllSpace(w2)
    ensures Collapse(a + w1 + b + w2 + c) == a + [' '] + b + [' '] + c
  {
    CollapseWord(c, []);
    assert c + [] == c;
    WordGap(b, w2, c);
    assert (b + w2 + c)[0] == b[0];
    WordGap(a, w1, b + w2 + c);
    assert a + w1 + b + w2 + c == a + w1 + (b + w2 + c);
    assert a + [' '] + b + [' '] + c == a + [' '] + (b + [' '] + c);
  }

  /** A run of inner spaces shrinks to one and the letters are lowercased. */
  lemma NormalizeWordsExample(s: string)
    requires s == "Xbox   Series X"
    ensures Normalize(Some(s)) == Some("xbox series x")
  {
    CanonicalWordsExample(s);
  }

  lemma CanonicalWordsExample(s: string)
    requires s == "Xbox   Series X"
    ensures Canonical(s) == "xbox series x"
  {
    StripCollapseExample(s);
    LowerExample(Collapse(Strip(s)));
  }

  lemma LowerExample(t: string)
    requires t == "Xbox Series X"
    ensures Lower(t) == "xbox series x"
  {
  }

  lemma StripCollapseExample(s: string)
    requires s == "Xbox   Series X"
    ensures Collapse(Strip(s)) == "Xbox Series X"
  {
    StripExample(s);
    CollapseExample(s);
  }

  lemma StripExample(s: string)
    requires s == "Xbox   Series X"
    ensures Strip(s) == s
  {
    assert s[0] == 'X' && s[|s| - 1] == 'X';
    assert TrimStart(s) == s;
  }

  lemma XboxPieces(s: string)
    requires s == "Xbox   Series X"
    ensures s == "Xbox" + "   " + "Series" + " " + "X"
    ensures "Xbox" + [' '] + "Series" + [' '] + "X" == "Xbox Series X"
  {
  }

  lemma XboxWords()
    ensures IsWord("Xbox") && IsWord("Series") && IsWord("X")
    ensures AllSpace("   ") && AllSpace(" ")
  {
  }

  lemma CollapseExample(s: string)
    requires s == "Xbox   Series X"
    ensures Collapse(s) == "Xbox Series X"
  {
    XboxPieces(s);
    XboxWords();
    CollapseThreeWords("Xbox", "   ", "Series", " ", "X");
  }
}
