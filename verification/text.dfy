/**
 Text primitives behind the redaction helper: Rust's notion of a whitespace
 character, the UTF-8 byte length that `str::len` reports, and the
 whitespace tokenizer `str::split_whitespace`, given both as a recursive
 reference definition (`Words`) and as a character scanner (`SplitWhitespace`).
 */
module Text {

  /** True iff `c` has the Unicode White_Space property, the test that
      Rust's `char::is_whitespace` (and so `split_whitespace`) applies. */
  predicate IsWhitespace(c: char) {
    var n := c as int;
    || (0x09 <= n <= 0x0D)
    || n == 0x20
    || n == 0x85
    || n == 0xA0
    || n == 0x1680
    || (0x2000 <= n <= 0x200A)
    || n == 0x2028
    || n == 0x2029
    || n == 0x202F
    || n == 0x205F
    || n == 0x3000
  }

  /** Within ASCII, whitespace is exactly space, tab, line feed, vertical
      tab, form feed and carriage return; every other whitespace character
      lies above ASCII and at or below U+3000. */
  lemma WhitespaceRange(c: char)
    ensures (c as int) < 0x80 ==> (IsWhitespace(c) <==> c in {' ', '\t', '\n', '\r', '\U{000B}', '\U{000C}'})
    ensures IsWhitespace(c) ==> (c as int) <= 0x3000
  {
  }

  /** Every character of `s` is whitespace (vacuously true of ""). */
  predicate AllWhitespace(s: string) {
    forall k :: 0 <= k < |s| ==> IsWhitespace(s[k])
  }

  /** `w` is something `split_whitespace` can yield: non-empty, no whitespace. */
  predicate IsToken(w: string) {
    |w| > 0 && forall k :: 0 <= k < |w| ==> !IsWhitespace(w[k])
  }

  /** Number of bytes UTF-8 uses for `c`. */
  function Utf8Width(c: char): (n: nat)
    ensures 1 <= n <= 4
    ensures n == 1 <==> (c as int) < 0x80
  {
    var v := c as int;
    if v < 0x80 then 1
    else if v < 0x800 then 2
    else if v < 0x1_0000 then 3
    else 4
  }

  /** `str::len`: the UTF-8 byte length of `s`. */
  function ByteLen(s: string): (n: nat)
    ensures n >= |s|
    ensures n == 0 <==> s == []
  {
    if s == [] then 0 else Utf8Width(s[0]) + ByteLen(s[1..])
  }

  predicate IsAscii(s: string) {
    forall k :: 0 <= k < |s| ==> (s[k] as int) < 0x80
  }

  /** On ASCII text the byte length is the character count, and only there. */
  lemma {:induction false} ByteLenAscii(s: string)
    ensures ByteLen(s) == |s| <==> IsAscii(s)
  {
    if s != [] {
      ByteLenAscii(s[1..]);
      assert IsAscii(s) <==> (s[0] as int) < 0x80 && IsAscii(s[1..]) by {
        if IsAscii(s[1..]) && (s[0] as int) < 0x80 {
          forall k | 0 <= k < |s| ensures (s[k] as int) < 0x80 {
            if k > 0 { assert s[k] == s[1..][k - 1]; }
          }
        }
      }
    }
  }

  /** Length of the run of non-whitespace characters that starts `s`. */
  function WordEnd(s: string): (n: nat)
    ensures n <= |s|
    ensures forall k :: 0 <= k < n ==> !IsWhitespace(s[k])
    ensures n < |s| ==> IsWhitespace(s[n])
  {
    if s == [] || IsWhitespace(s[0]) then 0 else 1 + WordEnd(s[1..])
  }

  /** Reference definition of `split_whitespace`: the maximal runs of
      non-whitespace characters of `s`, in order. */
  function Words(s: string): (ws: seq<string>)
    ensures forall i :: 0 <= i < |ws| ==> IsToken(ws[i])
    decreases |s|
  {
    if s == [] then []
    else if IsWhitespace(s[0]) then Words(s[1..])
    else
      var n := WordEnd(s);
      [s[..n]] + Words(s[n..])
  }

  /** Every token followed by one space: the layout `Words` undoes. */
  function Unwords(ws: seq<string>): string {
    if ws == [] then [] else ws[0] + " " + Unwords(ws[1..])
  }

  /** Tokens separated by single spaces, with nothing after the last one. */
  function Join(ws: seq<string>): string {
    if ws == [] then []
    else if |ws| == 1 then ws[0]
    else ws[0] + " " + Join(ws[1..])
  }

  /** The characters of a list of strings, in order. */
  function Flatten(ws: seq<string>): string {
    if ws == [] then [] else ws[0] + Flatten(ws[1..])
  }

  /** The non-whitespace characters of `s`, in order. */
  function Visible(s: string): string {
    if s == [] then []
    else (if IsWhitespace(s[0]) then [] else [s[0]]) + Visible(s[1..])
  }

  /** Leading whitespace contributes no token. */
  lemma WordsSkipWhitespace(t: string, s: string)
    requires AllWhitespace(t)
    ensures Words(t + s) == Words(s)
    decreases |t|
  {
    if t != [] {
      assert (t + s)[0] == t[0];
      assert (t + s)[1..] == t[1..] + s;
      WordsSkipWhitespace(t[1..], s);
    } else {
      assert t + s == s;
    }
  }

  /** A whitespace-only string has no tokens, and only such strings. */
  lemma {:induction false} WordsEmptyIff(s: string)
    ensures Words(s) == [] <==> AllWhitespace(s)
    decreases |s|
  {
    if s != [] {
      if IsWhitespace(s[0]) {
        WordsEmptyIff(s[1..]);
        assert AllWhitespace(s) <==> AllWhitespace(s[1..]) by {
          if AllWhitespace(s[1..]) {
            forall k | 0 <= k < |s| ensures IsWhitespace(s[k]) {
              if k > 0 { assert s[k] == s[1..][k - 1]; }
            }
          }
        }
      } else {
        assert !AllWhitespace(s) by { assert !IsWhitespace(s[0]); }
      }
    } else {
      assert AllWhitespace(s);
    }
  }

  lemma {:induction false} WordEndOfTokenThenBreak(w: string, t: string)
    requires IsToken(w)
    requires t == [] || IsWhitespace(t[0])
    ensures WordEnd(w + t) == |w|
    decreases |w|
  {
    assert (w + t)[0] == w[0];
    if |w| > 1 {
      assert (w + t)[1..] == w[1..] + t;
      WordEndOfTokenThenBreak(w[1..], t);
    } else {
      assert (w + t)[1..] == t;
    }
  }

  /** A token followed by a break (end of text or whitespace) is read back
      as exactly that token. */
  lemma TokenThenBreak(w: string, t: string)
    requires IsToken(w)
    requires t == [] || IsWhitespace(t[0])
    ensures Words(w + t) == [w] + Words(t)
  {
    WordEndOfTokenThenBreak(w, t);
    assert (w + t)[..|w|] == w;
    assert (w + t)[|w|..] == t;
  }

  /** A token and one space in front of `rest` read as that token followed
      by the tokens of `rest`. */
  lemma WordsOfTokenSpace(w: string, rest: string)
    requires IsToken(w)
    ensures Words(w + " " + rest) == [w] + Words(rest)
  {
    assert w + " " + rest == w + (" " + rest);
    TokenThenBreak(w, " " + rest);
    WordsSkipWhitespace(" ", rest);
  }

  /** Round trip: tokenizing tokens laid out with a space after each gives
      the tokens back. */
  lemma {:induction false} WordsOfUnwords(ws: seq<string>)
    requires forall i :: 0 <= i < |ws| ==> IsToken(ws[i])
    ensures Words(Unwords(ws)) == ws
  {
    if ws != [] {
      WordsOfTokenSpace(ws[0], Unwords(ws[1..]));
      WordsOfUnwords(ws[1..]);
    }
  }

  /** Round trip: tokenizing tokens separated by single spaces gives the
      tokens back. */
  lemma {:induction false} WordsOfJoin(ws: seq<string>)
    requires forall i :: 0 <= i < |ws| ==> IsToken(ws[i])
    ensures Words(Join(ws)) == ws
  {
    if |ws| == 1 {
      TokenThenBreak(ws[0], []);
      assert ws[0] + [] == ws[0];
    } else if |ws| > 1 {
      var rest := Join(ws[1..]);
      assert ws[0] + " " + rest == ws[0] + (" " + rest);
      TokenThenBreak(ws[0], " " + rest);
      WordsSkipWhitespace(" ", rest);
      WordsOfJoin(ws[1..]);
    }
  }

  lemma {:induction false} FlattenAppend(a: seq<string>, b: seq<string>)
    ensures Flatten(a + b) == Flatten(a) + Flatten(b)
  {
    if a != [] {
      assert (a + b)[0] == a[0];
      assert (a + b)[1..] == a[1..] + b;
      FlattenAppend(a[1..], b);
    } else {
      assert a + b == b;
    }
  }

  lemma {:induction false} VisibleAppend(a: string, b: string)
    ensures Visible(a + b) == Visible(a) + Visible(b)
  {
    if a != [] {
      assert (a + b)[0] == a[0];
      assert (a + b)[1..] == a[1..] + b;
      VisibleAppend(a[1..], b);
    } else {
      assert a + b == b;
    }
  }

  lemma {:induction false} VisibleOfToken(w: string)
    requires IsToken(w)
    ensures Visible(w) == w
    decreases |w|
  {
    if |w| > 1 {
      VisibleOfToken(w[1..]);
    } else {
      assert w[1..] == [];
    }
  }

  /** Tokenizing loses only whitespace: the tokens, glued together, are the
      non-whitespace characters of the input in order. */
  lemma {:induction false} WordsKeepVisible(s: string)
    ensures Flatten(Words(s)) == Visible(s)
    decreases |s|
  {
    if s != [] {
      if IsWhitespace(s[0]) {
        WordsKeepVisible(s[1..]);
      } else {
        var n := WordEnd(s);
        assert s == s[..n] + s[n..];
        WordsKeepVisible(s[n..]);
        VisibleAppend(s[..n], s[n..]);
        VisibleOfToken(s[..n]);
        FlattenAppend([s[..n]], Words(s[n..]));
      }
    }
  }

  /** A run of non-whitespace characters ended by whitespace or by the end
      of the text is cut off as one token. */
  lemma CutToken(s: string, start: nat, i: nat)
    requires start < i <= |s|
    requires forall k :: start <= k < i ==> !IsWhitespace(s[k])
    requires i == |s| || IsWhitespace(s[i])
    ensures Words(s[start..]) == [s[start..i]] + Words(s[i..])
  {
    assert s[start..] == s[start..i] + s[i..];
    assert IsToken(s[start..i]) by {
      forall k | 0 <= k < i - start ensures !IsWhitespace(s[start..i][k]) {
        assert s[start..i][k] == s[start + k];
      }
    }
    TokenThenBreak(s[start..i], s[i..]);
  }

  /** A whitespace character at the scan position contributes no token. */
  lemma SkipOne(s: string, i: nat)
    requires i < |s| && IsWhitespace(s[i])
    ensures Words(s[i..]) == Words(s[i + 1..])
  {
    assert s[i..] == [s[i]] + s[i + 1..];
    WordsSkipWhitespace([s[i]], s[i + 1..]);
  }

  /** The suffix from `start` when the run `s[start..i]` is ended by the
      whitespace at `i`: that run, if non-empty, then the tokens after `i`. */
  lemma BreakAt(s: string, start: nat, i: nat)
    requires start <= i < |s| && IsWhitespace(s[i])
    requires forall k :: start <= k < i ==> !IsWhitespace(s[k])
    ensures Words(s[start..]) == (if start < i then [s[start..i]] else []) + Words(s[i + 1..])
  {
    SkipOne(s, i);
    if start < i {
      CutToken(s, start, i);
    } else {
      assert s[start..] == s[i..];
    }
  }

  /** Re-groups `ws + (cut + rest)` as `(ws + cut) + rest`; split out of
      `ScanBreak` so that its proof stays cheap for the solver. */
  lemma Regroup(all: seq<string>, ws: seq<string>, mid: seq<string>, cut: seq<string>, rest: seq<string>)
    requires all == ws + mid && mid == cut + rest
    ensures all == (ws + cut) + rest
  {
  }

  /** The scan meets whitespace at `i`: the pending run, if any, becomes a
      token and scanning resumes after `i`. */
  lemma ScanBreak(s: string, ws: seq<string>, start: nat, i: nat)
    requires start <= i < |s| && IsWhitespace(s[i])
    requires forall k :: start <= k < i ==> !IsWhitespace(s[k])
    requires Words(s) == ws + Words(s[start..])
    ensures Words(s) == (if start < i then ws + [s[start..i]] else ws) + Words(s[i + 1..])
  {
    var cut: seq<string> := if start < i then [s[start..i]] else [];
    BreakAt(s, start, i);
    Regroup(Words(s), ws, Words(s[start..]), cut, Words(s[i + 1..]));
    assert ws + cut == (if start < i then ws + [s[start..i]] else ws);
  }

  /** The scan reaches the end of `s`: the pending run, if any, is the last
      token. */
  lemma ScanEnd(s: string, ws: seq<string>, start: nat)
    requires start <= |s|
    requires forall k :: start <= k < |s| ==> !IsWhitespace(s[k])
    requires Words(s) == ws + Words(s[start..])
    ensures Words(s) == (if start < |s| then ws + [s[start..]] else ws)
  {
    assert s[|s|..] == [];
    if start < |s| {
      CutToken(s, start, |s|);
      assert s[start..|s|] == s[start..];
    }
  }

  /** `split_whitespace`, as a scan over the characters of `s` that cuts a
      token each time a run of non-whitespace characters ends. */
  method SplitWhitespace(s: string) returns (ws: seq<string>)
    ensures ws == Words(s)
  {
    ws := [];
    var start, i := 0, 0;
    while i < |s|
      invariant start <= i <= |s|
      invariant forall k :: start <= k < i ==> !IsWhitespace(s[k])
      invariant Words(s) == ws + Words(s[start..])
    {
      if IsWhitespace(s[i]) {
        ScanBreak(s, ws, start, i);
        if start < i {
          ws := ws + [s[start..i]];
        }
        start := i + 1;
      }
      i := i + 1;
    }
    ScanEnd(s, ws, start);
    if start < |s| {
      ws := ws + [s[start..]];
    }
  }
}
