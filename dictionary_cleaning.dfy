/**
 * extract_word_from_entry of src/dictionaryCleaning.py: the headword of a
 * dictionary entry is the first whitespace-separated token of its first
 * non-blank line, kept only when it is made of letters alone.
 *
 * Python's str.splitlines, str.strip and str.split are written out below over
 * the characters Python counts as line breaks and as whitespace.
 */
module DictionaryCleaning {
  import opened Wrappers

  /** str.isspace for one character: the characters Python treats as whitespace. */
  predicate IsSpace(c: char)
  {
    || c == ' ' || '\t' <= c <= '\r' || '\U{1C}' <= c <= '\U{1F}'
    || c == '\U{85}' || c == '\U{A0}' || c == '\U{1680}' || '\U{2000}' <= c <= '\U{200A}'
    || c == '\U{2028}' || c == '\U{2029}' || c == '\U{202F}' || c == '\U{205F}' || c == '\U{3000}'
  }

  /** The characters at which str.splitlines ends a line ("\r\n" counts as one break). */
  predicate IsLineBreak(c: char)
  {
    || c == '\n' || c == '\r' || c == '\U{B}' || c == '\U{C}'
    || c == '\U{1C}' || c == '\U{1D}' || c == '\U{1E}' || c == '\U{85}' || c == '\U{2028}' || c == '\U{2029}'
  }

  /** str.isalpha, for the ASCII letters: non-empty and letters only, so free of whitespace. */
  function IsAlpha(s: string): (r: bool)
    ensures r ==> |s| > 0 && NoSpace(s)
  {
    |s| > 0 && forall i :: 0 <= i < |s| ==> ('a' <= s[i] <= 'z' || 'A' <= s[i] <= 'Z')
  }

  ghost predicate AllSpace(s: string)
  {
    forall i :: 0 <= i < |s| ==> IsSpace(s[i])
  }

  ghost predicate NoSpace(s: string)
  {
    forall i :: 0 <= i < |s| ==> !IsSpace(s[i])
  }

  /** Where the first line of s ends: the first line break, or the end of s. */
  function LineEnd(s: string): (k: nat)
    ensures k <= |s| && (k < |s| ==> IsLineBreak(s[k]))
    ensures forall i :: 0 <= i < k ==> !IsLineBreak(s[i])
  {
    if s == [] || IsLineBreak(s[0]) then 0 else 1 + LineEnd(s[1..])
  }

  /** How many characters the line break at s[k] takes: two for "\r\n", one otherwise. */
  function BreakLength(s: string, k: nat): (n: nat)
    requires k < |s|
    ensures 1 <= n && k + n <= |s|
  {
    if s[k] == '\r' && k + 1 < |s| && s[k + 1] == '\n' then 2 else 1
  }

  /** str.splitlines: the lines of s without their breaks; a final break opens no extra line. */
  function SplitLines(s: string): (r: seq<string>)
    ensures forall i :: 0 <= i < |r| ==> forall j :: 0 <= j < |r[i]| ==> !IsLineBreak(r[i][j])
    decreases |s|
  {
    if s == [] then []
    else
      var k := LineEnd(s);
      if k == |s| then [s]
      else [s[..k]] + SplitLines(s[k + BreakLength(s, k)..])
  }

  /** str.lstrip: s without its leading whitespace. */
  function TrimLeft(s: string): (r: string)
    ensures |r| <= |s|
    ensures r == [] || !IsSpace(r[0])
  {
    if s == [] || !IsSpace(s[0]) then s else TrimLeft(s[1..])
  }

  /** str.rstrip: s without its trailing whitespace. */
  function TrimRight(s: string): (r: string)
    ensures |r| <= |s| && r == s[..|r|] && AllSpace(s[|r|..])
    ensures r == [] || !IsSpace(r[|r| - 1])
  {
    if s == [] || !IsSpace(s[|s| - 1]) then s else TrimRight(s[..|s| - 1])
  }

  /**
   * str.strip: empty exactly when s is all whitespace, and otherwise starting and
   * ending with a non-space.
   */
  function Strip(s: string): (r: string)
    ensures |r| <= |s|
    ensures r == [] <==> AllSpace(s)
    ensures r == [] || (!IsSpace(r[0]) && !IsSpace(r[|r| - 1]))
  {
    var t := TrimLeft(s);
    TrimLeftBlank(s);
    if t == [] then [] else TrimRightKeepsHead(t); TrimRight(t)
  }

  /** The length of the run of non-whitespace that t starts with. */
  function RunLength(t: string): (k: nat)
    ensures k <= |t| && NoSpace(t[..k]) && (k < |t| ==> IsSpace(t[k]))
  {
    if t == [] || IsSpace(t[0]) then 0 else 1 + RunLength(t[1..])
  }

  /** str.split with no separator: the maximal runs of non-whitespace, in order. */
  function Split(s: string): (r: seq<string>)
    ensures forall i :: 0 <= i < |r| ==> |r[i]| > 0 && NoSpace(r[i])
    decreases |s|
  {
    var t := TrimLeft(s);
    if t == [] then []
    else
      var k := RunLength(t);
      [t[..k]] + Split(t[k..])
  }

  /** The lines, stripped, with the blank ones dropped, in order. */
  function StrippedNonBlank(lines: seq<string>): (r: seq<string>)
    ensures |r| <= |lines|
    ensures forall i :: 0 <= i < |r| ==> r[i] != []
    ensures r == [] <==> forall j :: 0 <= j < |lines| ==> AllSpace(lines[j])
  {
    if lines == [] then []
    else if Strip(lines[0]) == [] then StrippedNonBlank(lines[1..])
    else [Strip(lines[0])] + StrippedNonBlank(lines[1..])
  }

  /**
   * extract_word_from_entry: the first token of the first non-blank stripped line,
   * when it is alphabetic; None when it is not, or when every line is blank.
   */
  function ExtractWord(entry: string): (r: Option<string>)
    ensures r.Some? ==> IsAlpha(r.value) && NoSpace(r.value)
  {
    var lines := StrippedNonBlank(SplitLines(entry));
    if |lines| > 0 then
      var tokens := Split(lines[0]);
      if |tokens| > 0 then
        var word := tokens[0];
        if !IsAlpha(word) then None else Some(word)
      else None
    else None
  }

  /** The first whitespace-separated token of s, if s is not all whitespace. */
  function FirstToken(s: string): Option<string>
  {
    var t := TrimLeft(s);
    if t == [] then None else Some(t[..RunLength(t)])
  }

  /** Every line break is whitespace. */
  lemma LineBreakIsSpace(c: char)
    requires IsLineBreak(c)
    ensures IsSpace(c)
  {
  }

  lemma AllSpaceConcat(a: string, b: string)
    requires AllSpace(a) && AllSpace(b)
    ensures AllSpace(a + b)
  {
    forall i | 0 <= i < |a + b| ensures IsSpace((a + b)[i]) {
      if i < |a| {
        assert (a + b)[i] == a[i];
      } else {
        assert (a + b)[i] == b[i - |a|];
      }
    }
  }

  /** Leading whitespace vanishes under lstrip. */
  lemma {:induction false} TrimLeftSkipsSpace(w: string, r: string)
    requires AllSpace(w)
    ensures TrimLeft(w + r) == TrimLeft(r)
    decreases |w|
  {
    if w != [] {
      assert (w + r)[0] == w[0] && (w + r)[1..] == w[1..] + r;
      assert TrimLeft(w + r) == TrimLeft(w[1..] + r);
      assert AllSpace(w[1..]) by {
        forall i | 0 <= i < |w[1..]| ensures IsSpace(w[1..][i]) {
          assert w[1..][i] == w[i + 1];
        }
      }
      TrimLeftSkipsSpace(w[1..], r);
    } else {
      assert w + r == r;
    }
  }

  /** Once a non-space is met, lstrip keeps everything after it. */
  lemma {:induction false} TrimLeftAppend(a: string, u: string)
    requires TrimLeft(a) != []
    ensures TrimLeft(a + u) == TrimLeft(a) + u
    decreases |a|
  {
    if IsSpace(a[0]) {
      assert (a + u)[1..] == a[1..] + u;
      TrimLeftAppend(a[1..], u);
    }
  }

  /** lstrip removes only whitespace from the front. */
  lemma {:induction false} TrimLeftDropsSpace(s: string)
    ensures s == s[..|s| - |TrimLeft(s)|] + TrimLeft(s)
    ensures AllSpace(s[..|s| - |TrimLeft(s)|])
    decreases |s|
  {
    if s != [] && IsSpace(s[0]) {
      TrimLeftDropsSpace(s[1..]);
      var d := |s| - |TrimLeft(s)|;
      assert s[1..][..d - 1] == s[1..d];
      forall i | 0 <= i < d ensures IsSpace(s[..d][i]) {
        if i > 0 {
          assert s[..d][i] == s[1..][..d - 1][i - 1];
        }
      }
    }
  }

  /** lstrip leaves nothing exactly when the text is all whitespace. */
  lemma {:induction false} TrimLeftBlank(s: string)
    ensures TrimLeft(s) == [] <==> AllSpace(s)
    decreases |s|
  {
    if s != [] {
      TrimLeftBlank(s[1..]);
      if AllSpace(s[1..]) && IsSpace(s[0]) {
        forall i | 0 <= i < |s| ensures IsSpace(s[i]) {
          if i > 0 { assert s[i] == s[1..][i - 1]; }
        }
      }
      if AllSpace(s) {
        forall i | 0 <= i < |s[1..]| ensures IsSpace(s[1..][i]) {
          assert s[1..][i] == s[i + 1];
        }
      }
    }
  }

  /** Text that starts with a non-space is left alone by lstrip. */
  lemma TrimLeftFixed(t: string)
    requires t == [] || !IsSpace(t[0])
    ensures TrimLeft(t) == t
  {
  }

  /** rstrip leaves the first character of text that starts with a non-space. */
  lemma {:induction false} TrimRightKeepsHead(t: string)
    requires t != [] && !IsSpace(t[0])
    ensures TrimRight(t) != [] && TrimRight(t)[0] == t[0]
    decreases |t|
  {
    if IsSpace(t[|t| - 1]) {
      TrimRightKeepsHead(t[..|t| - 1]);
    }
  }

  /** A run of non-whitespace stops at the whitespace that follows it. */
  lemma {:induction false} RunLengthAppend(t: string, u: string)
    requires |u| > 0 && IsSpace(u[0])
    ensures RunLength(t + u) == RunLength(t)
    decreases |t|
  {
    if t != [] && !IsSpace(t[0]) {
      assert (t + u)[1..] == t[1..] + u;
      RunLengthAppend(t[1..], u);
    }
  }

  /** Text after whitespace does not change the first token of a non-blank prefix. */
  lemma FirstTokenAppend(a: string, u: string)
    requires TrimLeft(a) != [] && |u| > 0 && IsSpace(u[0])
    ensures FirstToken(a + u) == FirstToken(a)
  {
    var t := TrimLeft(a);
    TrimLeftAppend(a, u);
    RunLengthAppend(t, u);
    assert (t + u)[..RunLength(t)] == t[..RunLength(t)];
  }

  /** FirstToken is the head of str.split. */
  lemma SplitHead(s: string)
    ensures FirstToken(s).None? <==> Split(s) == []
    ensures FirstToken(s).Some? ==> FirstToken(s).value == Split(s)[0]
  {
  }

  /** Stripping a line does not change its first token. */
  lemma StripKeepsFirstToken(line: string)
    ensures FirstToken(Strip(line)) == FirstToken(line)
    ensures Strip(line) == [] <==> TrimLeft(line) == []
  {
    var t := TrimLeft(line);
    TrimLeftFixed(t);
    assert FirstToken(line) == FirstToken(t);
    if t != [] {
      var body := TrimRight(t);
      var tail := t[|body|..];
      TrimRightKeepsHead(t);
      assert t == body + tail;
      TrimLeftFixed(body);
      if tail != [] {
        FirstTokenAppend(body, tail);
      }
    }
  }

  /** The line break that ends the first line, with the rest of the text. */
  lemma LineBreakSplit(s: string, k: nat)
    requires k < |s| && IsLineBreak(s[k])
    ensures s == s[..k] + (s[k..k + BreakLength(s, k)] + s[k + BreakLength(s, k)..])
    ensures s == (s[..k] + s[k..k + BreakLength(s, k)]) + s[k + BreakLength(s, k)..]
    ensures AllSpace(s[k..k + BreakLength(s, k)])
  {
    var n := k + BreakLength(s, k);
    assert s[..k] + s[k..n] == s[..n];
    assert s[k..n] + s[n..] == s[k..];
    assert s[..n] + s[n..] == s;
    assert s[..k] + s[k..] == s;
    var brk := s[k..n];
    forall i | 0 <= i < |brk| ensures IsSpace(brk[i]) {
      assert brk[i] == s[k + i];
    }
  }

  /** A blank first line followed by a break is skipped by both sides of FirstLineToken. */
  lemma BlankLineStep(s: string)
    requires s != [] && LineEnd(s) < |s| && Strip(s[..LineEnd(s)]) == []
    ensures var rest := s[LineEnd(s) + BreakLength(s, LineEnd(s))..];
      StrippedNonBlank(SplitLines(s)) == StrippedNonBlank(SplitLines(rest)) && TrimLeft(s) == TrimLeft(rest)
  {
    var k := LineEnd(s);
    var line, brk, rest := s[..k], s[k..k + BreakLength(s, k)], s[k + BreakLength(s, k)..];
    assert ([line] + SplitLines(rest))[1..] == SplitLines(rest);
    LineBreakSplit(s, k);
    StripKeepsFirstToken(line);
    TrimLeftDropsSpace(line);
    AllSpaceConcat(line, brk);
    TrimLeftSkipsSpace(line + brk, rest);
  }

  /** A non-blank first line followed by a break holds the first token of the whole text. */
  lemma TextLineStep(s: string)
    requires s != [] && LineEnd(s) < |s| && Strip(s[..LineEnd(s)]) != []
    ensures StrippedNonBlank(SplitLines(s)) != [] && TrimLeft(s) != []
    ensures FirstToken(StrippedNonBlank(SplitLines(s))[0]) == FirstToken(s)
  {
    var k := LineEnd(s);
    var line, brk, rest := s[..k], s[k..k + BreakLength(s, k)], s[k + BreakLength(s, k)..];
    assert StrippedNonBlank(SplitLines(s))[0] == Strip(line);
    LineBreakSplit(s, k);
    StripKeepsFirstToken(line);
    FirstTokenAppend(line, brk + rest);
    TrimLeftAppend(line, brk + rest);
  }

  /** A text with no line break is a single line. */
  lemma LastLineStep(s: string)
    requires s != [] && LineEnd(s) == |s|
    ensures StrippedNonBlank(SplitLines(s)) == [] <==> TrimLeft(s) == []
    ensures StrippedNonBlank(SplitLines(s)) != [] ==>
      FirstToken(StrippedNonBlank(SplitLines(s))[0]) == FirstToken(s)
  {
    assert SplitLines(s) == [s];
    assert StrippedNonBlank([s]) == if Strip(s) == [] then [] else [Strip(s)];
    StripKeepsFirstToken(s);
  }

  /**
   * The first non-blank stripped line exists exactly when the text is not all
   * whitespace, and its first token is the first token of the whole text.
   */
  lemma {:induction false} FirstLineToken(s: string)
    ensures StrippedNonBlank(SplitLines(s)) == [] <==> TrimLeft(s) == []
    ensures StrippedNonBlank(SplitLines(s)) != [] ==>
      FirstToken(StrippedNonBlank(SplitLines(s))[0]) == FirstToken(s)
    decreases |s|
  {
    if s == [] {
      assert SplitLines(s) == [] && StrippedNonBlank([]) == [];
    } else {
      var k := LineEnd(s);
      if k == |s| {
        LastLineStep(s);
      } else if Strip(s[..k]) == [] {
        var rest := s[k + BreakLength(s, k)..];
        BlankLineStep(s);
        FirstLineToken(rest);
      } else {
        TextLineStep(s);
      }
    }
  }

  /**
   * The parse in one line: the result is the first whitespace-separated token of
   * the whole entry when that token is alphabetic, and None otherwise.
   */
  lemma ExtractWordIsFirstToken(entry: string)
    ensures ExtractWord(entry) ==
      match FirstToken(entry)
      case None => None
      case Some(w) => if IsAlpha(w) then Some(w) else None
  {
    FirstLineToken(entry);
    var lines := StrippedNonBlank(SplitLines(entry));
    if |lines| > 0 {
      SplitHead(lines[0]);
    }
  }

  /** An entry with no non-blank line gives None. */
  lemma BlankEntry(entry: string)
    requires AllSpace(entry)
    ensures ExtractWord(entry) == None
  {
    ExtractWordIsFirstToken(entry);
    assert entry + [] == entry;
    TrimLeftSkipsSpace(entry, []);
  }

  /** Blank lines and whitespace before the first non-blank line do not change the result. */
  lemma LeadingBlankIgnored(blank: string, entry: string)
    requires AllSpace(blank)
    ensures ExtractWord(blank + entry) == ExtractWord(entry)
  {
    ExtractWordIsFirstToken(blank + entry);
    ExtractWordIsFirstToken(entry);
    TrimLeftSkipsSpace(blank, entry);
  }
}
