/** The email tokenizer shared by both game components:
    `text.split(/(\s+|https?:\/\/[^\s]+|[^\s]+)/g).filter(Boolean)`.

    The regular expression is modelled alternative by alternative, the array
    that `String.prototype.split` builds from a capturing pattern is modelled
    piece by piece, and the result is proved equal to a plain reference
    definition: the maximal whitespace and non-whitespace runs of the text. */
module Tokenizer {

  /** JavaScript's `\s` class: the ECMAScript WhiteSpace and LineTerminator
      code points. */
  predicate IsSpace(c: char) {
    c == '\t' || c == '\n' || c == '\U{000B}' || c == '\U{000C}' || c == '\r' ||
    c == ' ' || c == '\U{00A0}' || c == '\U{1680}' ||
    ('\U{2000}' <= c <= '\U{200A}') ||
    c == '\U{2028}' || c == '\U{2029}' || c == '\U{202F}' || c == '\U{205F}' ||
    c == '\U{3000}' || c == '\U{FEFF}'
  }

  /** Length of the longest prefix of `s` whose characters are all whitespace
      (`space`) or all non-whitespace (`!space`): what a greedy `\s+` or
      `[^\s]+` consumes, or 0 where it fails. */
  function RunLength(s: string, space: bool): (n: nat)
    ensures n <= |s|
    ensures forall i :: 0 <= i < n ==> IsSpace(s[i]) == space
    ensures n < |s| ==> IsSpace(s[n]) != space
  {
    if s == [] || IsSpace(s[0]) != space then 0 else 1 + RunLength(s[1..], space)
  }

  const Https: string := "https://"
  const Http: string := "http://"

  /** Length matched by the alternative `https?:\/\/[^\s]+` at the start of
      `s`, or 0 where it fails. The optional `s` is greedy, so the longer
      scheme is tried first; `[^\s]+` needs at least one character. */
  function UrlMatch(s: string): (n: nat)
    ensures n <= |s|
    ensures n > 0 ==> (Https <= s && |Https| < n) || (Http <= s && |Http| < n)
    ensures n > 0 ==> forall i :: 0 <= i < n ==> !IsSpace(s[i])
  {
    SchemesAreNotSpace();
    if Https <= s && RunLength(s[|Https|..], false) > 0 then
      |Https| + RunLength(s[|Https|..], false)
    else if Http <= s && RunLength(s[|Http|..], false) > 0 then
      |Http| + RunLength(s[|Http|..], false)
    else 0
  }

  /** Length matched by `\s+|https?:\/\/[^\s]+|[^\s]+` at the start of `s`:
      the first alternative that succeeds wins. Some alternative succeeds at
      every position of a non-empty text. */
  function AlternationMatch(s: string): (n: nat)
    ensures s != [] ==> 0 < n <= |s|
    ensures s == [] ==> n == 0
  {
    if s == [] then 0
    else if IsSpace(s[0]) then RunLength(s, true)
    else if UrlMatch(s) > 0 then UrlMatch(s)
    else RunLength(s, false)
  }

  /** The array `split` returns for the capturing pattern. Every position of
      the text starts a match, so each match contributes the empty piece before
      it and its captured text, and the empty tail comes last; the empty text
      is not matched at all and gives `[""]`. */
  function SplitPieces(s: string): (r: seq<string>)
    ensures |r| % 2 == 1
    ensures forall k :: 0 <= k < |r| ==> (r[k] == "" <==> k % 2 == 0)
    decreases |s|
  {
    if s == [] then [""]
    else
      var n := AlternationMatch(s);
      var rest := SplitPieces(s[n..]);
      PiecesStep(s[..n], rest);
      ["", s[..n]] + rest
  }

  /** One match in front of the pieces of the rest keeps empty pieces at even
      places and captures at odd places. */
  lemma PiecesStep(captured: string, rest: seq<string>)
    requires captured != ""
    requires |rest| % 2 == 1
    requires forall k :: 0 <= k < |rest| ==> (rest[k] == "" <==> k % 2 == 0)
    ensures |["", captured] + rest| % 2 == 1
    ensures forall k :: 0 <= k < |["", captured] + rest| ==> ((["", captured] + rest)[k] == "" <==> k % 2 == 0)
  {
    var r := ["", captured] + rest;
    forall k | 2 <= k < |r| ensures (r[k] == "" <==> k % 2 == 0) {
      assert r[k] == rest[k - 2];
    }
  }

  /** `.filter(Boolean)`: drop the empty strings. */
  function NonEmpty(parts: seq<string>): (r: seq<string>)
    ensures forall k :: 0 <= k < |r| ==> r[k] != ""
    ensures |r| <= |parts|
  {
    if parts == [] then []
    else if parts[0] == "" then NonEmpty(parts[1..])
    else [parts[0]] + NonEmpty(parts[1..])
  }

  /** The tokenizer as the components write it. */
  function Tokenize(text: string): (r: seq<string>)
    ensures forall k :: 0 <= k < |r| ==> r[k] != ""
    ensures text == [] ==> r == []
  {
    NonEmpty(SplitPieces(text))
  }

  // ---------------------------------------------------------------------
  // Reference definition: maximal runs

  /** The maximal runs of whitespace and of non-whitespace, in order. */
  function Runs(s: string): seq<string>
    decreases |s|
  {
    if s == [] then []
    else
      var n := RunLength(s, IsSpace(s[0]));
      [s[..n]] + Runs(s[n..])
  }

  function Concat(ts: seq<string>): string {
    if ts == [] then [] else ts[0] + Concat(ts[1..])
  }

  /** A token is non-empty and all whitespace or all non-whitespace. */
  predicate Uniform(t: string) {
    t != [] && forall i :: 0 <= i < |t| ==> IsSpace(t[i]) == IsSpace(t[0])
  }

  /** Every token is uniform and neighbouring tokens are of different kinds. */
  predicate WellFormed(ts: seq<string>) {
    (forall k :: 0 <= k < |ts| ==> Uniform(ts[k])) &&
    (forall k :: 0 <= k < |ts| - 1 ==> IsSpace(ts[k][0]) != IsSpace(ts[k + 1][0]))
  }

  // ---------------------------------------------------------------------
  // The URL alternative never changes what is matched

  lemma {:induction false} RunLengthSkip(s: string, p: string)
    requires p <= s
    requires forall i :: 0 <= i < |p| ==> !IsSpace(p[i])
    ensures RunLength(s, false) == |p| + RunLength(s[|p|..], false)
  {
    if p != [] {
      assert s[1..][|p| - 1..] == s[|p|..];
      RunLengthSkip(s[1..], p[1..]);
    }
  }

  /** At every position, the alternation consumes exactly the maximal run of
      the first character's kind: the URL alternative only ever matches what
      `[^\s]+` would match there. */
  lemma AlternationIsRun(s: string)
    requires s != []
    ensures AlternationMatch(s) == RunLength(s, IsSpace(s[0]))
  {
    if !IsSpace(s[0]) && UrlMatch(s) > 0 {
      SchemesAreNotSpace();
      if Https <= s && RunLength(s[|Https|..], false) > 0 {
        RunLengthSkip(s, Https);
      } else {
        RunLengthSkip(s, Http);
      }
    }
  }

  lemma SchemesAreNotSpace()
    ensures forall i :: 0 <= i < |Https| ==> !IsSpace(Https[i])
    ensures forall i :: 0 <= i < |Http| ==> !IsSpace(Http[i])
  {
    assert Https == ['h', 't', 't', 'p', 's', ':', '/', '/'];
    assert Http == ['h', 't', 't', 'p', ':', '/', '/'];
  }

  lemma {:induction false} NonEmptyAppend(a: seq<string>, b: seq<string>)
    ensures NonEmpty(a + b) == NonEmpty(a) + NonEmpty(b)
  {
    if a == [] {
      assert a + b == b;
    } else {
      assert (a + b)[0] == a[0];
      assert (a + b)[1..] == a[1..] + b;
      NonEmptyAppend(a[1..], b);
    }
  }

  /** The tokenizer as written equals the maximal-run reference definition. */
  lemma {:induction false} TokenizeIsRuns(text: string)
    ensures Tokenize(text) == Runs(text)
    decreases |text|
  {
    if text != [] {
      var n := AlternationMatch(text);
      AlternationIsRun(text);
      NonEmptyAppend(["", text[..n]], SplitPieces(text[n..]));
      assert NonEmpty(["", text[..n]]) == [text[..n]] by {
        assert ["", text[..n]][1..] == [text[..n]];
        assert [text[..n]][1..] == [];
      }
      TokenizeIsRuns(text[n..]);
    }
  }

  // ---------------------------------------------------------------------
  // Properties of the tokenizer

  lemma {:induction false} RunsRoundTrip(s: string)
    ensures Concat(Runs(s)) == s
    decreases |s|
  {
    if s != [] {
      var n := RunLength(s, IsSpace(s[0]));
      RunsRoundTrip(s[n..]);
      assert ([s[..n]] + Runs(s[n..]))[1..] == Runs(s[n..]);
      assert s[..n] + s[n..] == s;
    }
  }

  lemma {:induction false} RunsWellFormed(s: string)
    ensures WellFormed(Runs(s))
    ensures s != [] ==> Runs(s) != [] && Runs(s)[0][0] == s[0]
    decreases |s|
  {
    if s != [] {
      var n := RunLength(s, IsSpace(s[0]));
      RunsWellFormed(s[n..]);
      var ts := [s[..n]] + Runs(s[n..]);
      assert Uniform(ts[0]);
      forall k | 0 <= k < |ts|
        ensures Uniform(ts[k])
      {
        if k > 0 {
          assert ts[k] == Runs(s[n..])[k - 1];
        }
      }
      forall k | 0 <= k < |ts| - 1
        ensures IsSpace(ts[k][0]) != IsSpace(ts[k + 1][0])
      {
        if k == 0 {
          assert ts[1][0] == s[n];
        } else {
          assert ts[k] == Runs(s[n..])[k - 1] && ts[k + 1] == Runs(s[n..])[k];
        }
      }
    }
  }

  /** Concatenating the tokens gives back the text exactly. */
  lemma TokenizeRoundTrip(text: string)
    ensures Concat(Tokenize(text)) == text
  {
    TokenizeIsRuns(text);
    RunsRoundTrip(text);
  }

  /** Every token is non-empty and all whitespace or all non-whitespace, and
      adjacent tokens differ in kind; the empty text has no tokens. */
  lemma TokenizeWellFormed(text: string)
    ensures WellFormed(Tokenize(text))
    ensures Tokenize(text) == [] <==> text == []
  {
    TokenizeIsRuns(text);
    RunsWellFormed(text);
  }

  lemma {:induction false} RunLengthOfConcat(a: string, b: string, space: bool)
    requires forall i :: 0 <= i < |a| ==> IsSpace(a[i]) == space
    requires b != [] ==> IsSpace(b[0]) != space
    ensures RunLength(a + b, space) == |a|
  {
    if a != [] {
      assert (a + b)[1..] == a[1..] + b;
      RunLengthOfConcat(a[1..], b, space);
    }
  }

  /** Dropping the first token of a well-formed sequence leaves a well-formed
      sequence. */
  lemma WellFormedTail(ts: seq<string>)
    requires WellFormed(ts) && ts != []
    ensures WellFormed(ts[1..])
  {
    var rest := ts[1..];
    forall k | 0 <= k < |rest| - 1
      ensures IsSpace(rest[k][0]) != IsSpace(rest[k + 1][0])
    {
      assert rest[k] == ts[k + 1] && rest[k + 1] == ts[k + 2];
    }
  }

  lemma ConcatHead(ts: seq<string>)
    requires WellFormed(ts) && |ts| > 1
    ensures Concat(ts[1..]) != [] && Concat(ts[1..])[0] == ts[1][0]
  {
    assert Uniform(ts[1]);
    assert ts[1..][0] == ts[1];
  }

  /** The tokens are the only split of the text into uniform pieces whose
      neighbours differ in kind: any such split is the tokenizer's output. */
  lemma {:induction false} RunsUnique(s: string, ts: seq<string>)
    requires WellFormed(ts)
    requires Concat(ts) == s
    ensures ts == Runs(s)
    decreases |ts|
  {
    if ts != [] {
      var rest := ts[1..];
      WellFormedTail(ts);
      assert Uniform(ts[0]);
      var space := IsSpace(ts[0][0]);
      if |ts| > 1 {
        ConcatHead(ts);
      }
      RunLengthOfConcat(ts[0], Concat(rest), space);
      var n := |ts[0]|;
      assert s[0] == ts[0][0];
      assert s[..n] == ts[0] && s[n..] == Concat(rest);
      RunsUnique(s[n..], rest);
      assert ts == [ts[0]] + rest;
    }
  }

  /** The tokenizer's output is characterised by the round trip and the
      run shape: a sequence of strings is the tokenization of `text` exactly
      when it concatenates to `text` and is well formed. */
  lemma TokenizeCharacterised(text: string, ts: seq<string>)
    ensures ts == Tokenize(text) <==> (Concat(ts) == text && WellFormed(ts))
  {
    TokenizeRoundTrip(text);
    TokenizeWellFormed(text);
    TokenizeIsRuns(text);
    if Concat(ts) == text && WellFormed(ts) {
      RunsUnique(text, ts);
    }
  }
}
