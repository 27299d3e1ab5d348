/** String handling used by the quiz: `String.prototype.trim`, an ASCII model of
    `toLowerCase`, and `cleanText`, which deletes `^^…^^` annotation markers. */
module Text {
  import opened Wrappers

  /** ECMAScript LineTerminator: the characters the regular-expression `.` does not match. */
  predicate IsLineTerminator(c: char) {
    c == '\n' || c == '\r' || c == '\U{2028}' || c == '\U{2029}'
  }

  /** ECMAScript WhiteSpace or LineTerminator: what `trim` removes. The space separators
      (category Zs) are U+0020, U+00A0, U+1680, U+2000 to U+200A, U+202F, U+205F and U+3000. */
  predicate IsWhitespace(c: char) {
    || IsLineTerminator(c)
    || c == '\t' || c == '\U{000B}' || c == '\U{000C}' || c == '\U{FEFF}'
    || c == ' ' || c == '\U{00A0}' || c == '\U{1680}'
    || ('\U{2000}' <= c <= '\U{200A}')
    || c == '\U{202F}' || c == '\U{205F}' || c == '\U{3000}'
  }

  predicate AllWhitespace(s: string) {
    forall i :: 0 <= i < |s| ==> IsWhitespace(s[i])
  }

  /** Drops leading whitespace: what remains is a suffix that is empty or starts with a
      non-whitespace character, and everything dropped was whitespace. */
  function TrimStart(s: string): (r: string)
    ensures |r| <= |s| && r == s[|s| - |r|..]
    ensures AllWhitespace(s[..|s| - |r|])
    ensures |r| > 0 ==> !IsWhitespace(r[0])
    decreases |s|
  {
    if |s| > 0 && IsWhitespace(s[0]) then TrimStart(s[1..]) else s
  }

  /** Drops trailing whitespace: what remains is a prefix that is empty or ends with a
      non-whitespace character, and everything dropped was whitespace. */
  function TrimEnd(s: string): (r: string)
    ensures |r| <= |s| && r == s[..|r|]
    ensures AllWhitespace(s[|r|..])
    ensures |r| > 0 ==> !IsWhitespace(r[|r| - 1])
    decreases |s|
  {
    if |s| > 0 && IsWhitespace(s[|s| - 1]) then TrimEnd(s[..|s| - 1]) else s
  }

  /** `s.trim()`. */
  function Trim(s: string): (r: string)
    ensures |r| <= |s|
    ensures |r| > 0 ==> !IsWhitespace(r[0]) && !IsWhitespace(r[|r| - 1])
  {
    var t := TrimStart(s);
    var r := TrimEnd(t);
    assert |r| > 0 ==> r[0] == t[0];
    r
  }

  /** Trimming yields the empty string exactly when the input is blank. */
  lemma TrimEmptyIffBlank(s: string)
    ensures Trim(s) == [] <==> AllWhitespace(s)
  {
    var t := TrimStart(s);
    var r := TrimEnd(t);
    var lo := |s| - |t|;
    if |t| > 0 {
      assert t[0] == s[lo];
      assert r != [] by {
        assert t[..0] + t[0..] == t;
      }
    } else {
      assert s == s[..lo];
    }
  }

  /** The trimmed text is a slice of the input with only whitespace on either side of it. */
  lemma TrimIsSlice(s: string)
    ensures exists lo :: 0 <= lo && lo + |Trim(s)| <= |s| && s[lo..lo + |Trim(s)|] == Trim(s)
                         && AllWhitespace(s[..lo]) && AllWhitespace(s[lo + |Trim(s)|..])
  {
    var t := TrimStart(s);
    var r := TrimEnd(t);
    assert r == Trim(s);
    var lo := |s| - |t|;
    WhitespaceAround(s, lo, t, r);
    assert s[lo..lo + |r|] == r;
  }

  /** A prefix `r` of the suffix `t` of `s`, with whitespace before `t` and after `r`, is a
      slice of `s` with whitespace on either side. */
  lemma WhitespaceAround(s: string, lo: nat, t: string, r: string)
    requires lo <= |s| && t == s[lo..] && |r| <= |t| && r == t[..|r|]
    requires AllWhitespace(s[..lo]) && AllWhitespace(t[|r|..])
    ensures lo + |r| <= |s| && s[lo..lo + |r|] == r
    ensures AllWhitespace(s[lo + |r|..])
  {
    SuffixSlices(s, lo, |r|);
  }

  /** Slicing a suffix is slicing the whole from further on. */
  lemma SuffixSlices(s: string, lo: nat, n: nat)
    requires lo + n <= |s|
    ensures s[lo..][..n] == s[lo..lo + n] && s[lo..][n..] == s[lo + n..]
  {
  }

  /** Trimming twice is the same as trimming once. */
  lemma TrimIdempotent(s: string)
    ensures Trim(Trim(s)) == Trim(s)
  {
    var r := Trim(s);
    assert TrimStart(r) == r;
    assert TrimEnd(r) == r;
  }

  /** ASCII model of lower-casing one character. */
  function LowerChar(c: char): char {
    if 'A' <= c <= 'Z' then (c as int + 32) as char else c
  }

  /** `s.toLowerCase()` restricted to ASCII letters. */
  function ToLower(s: string): (r: string)
    ensures |r| == |s|
    ensures forall i :: 0 <= i < |s| ==> r[i] == LowerChar(s[i])
    decreases |s|
  {
    if |s| == 0 then [] else [LowerChar(s[0])] + ToLower(s[1..])
  }

  /** Lower-casing leaves no upper-case ASCII letter, so applying it again changes nothing. */
  lemma ToLowerIdempotent(s: string)
    ensures forall i :: 0 <= i < |ToLower(s)| ==> !('A' <= ToLower(s)[i] <= 'Z')
    ensures ToLower(ToLower(s)) == ToLower(s)
  {
  }

  /** Lower-casing commutes with trimming, so trimming before or after comparing
      case-insensitively gives the same verdict. */
  lemma {:induction false} TrimThenLower(s: string)
    ensures ToLower(Trim(s)) == Trim(ToLower(s))
  {
    LowerTrimStart(s);
    LowerTrimEnd(TrimStart(s));
  }

  /** Lower-casing turns no character into whitespace and no whitespace into anything else. */
  lemma LowerKeepsWhitespace(c: char)
    ensures IsWhitespace(LowerChar(c)) <==> IsWhitespace(c)
  {
    if 'A' <= c <= 'Z' {
      assert 'a' <= LowerChar(c) <= 'z';
    }
  }

  lemma {:induction false} LowerTrimStart(s: string)
    ensures ToLower(TrimStart(s)) == TrimStart(ToLower(s))
    decreases |s|
  {
    if |s| > 0 {
      var lower := ToLower(s);
      LowerKeepsWhitespace(s[0]);
      assert lower[0] == LowerChar(s[0]);
      if IsWhitespace(s[0]) {
        assert lower[1..] == ToLower(s[1..]);
        LowerTrimStart(s[1..]);
        assert TrimStart(lower) == TrimStart(lower[1..]);
      } else {
        assert TrimStart(lower) == lower;
      }
    }
  }

  lemma {:induction false} LowerTrimEnd(s: string)
    ensures ToLower(TrimEnd(s)) == TrimEnd(ToLower(s))
    decreases |s|
  {
    if |s| > 0 {
      var n := |s| - 1;
      var lower := ToLower(s);
      LowerKeepsWhitespace(s[n]);
      assert lower[n] == LowerChar(s[n]);
      if IsWhitespace(s[n]) {
        assert lower[..n] == ToLower(s[..n]);
        LowerTrimEnd(s[..n]);
        assert TrimEnd(lower) == TrimEnd(lower[..n]);
      } else {
        assert TrimEnd(lower) == lower;
      }
    }
  }

  /** A `^^` marker starts at position `q`. */
  predicate IsMarker(s: string, q: int) {
    0 <= q && q + 2 <= |s| && s[q] == '^' && s[q + 1] == '^'
  }

  /** No line terminator lies in `s[i..q]`, so `.` can match all of it. */
  predicate ClearRun(s: string, i: int, q: int)
    requires 0 <= i <= q <= |s|
  {
    forall k :: i <= k < q ==> !IsLineTerminator(s[k])
  }

  /** The lazy part `.*?\^\^` of the marker pattern, tried from position `i`: the first
      closing `^^` at or after `i` that is not preceded by a line terminator, if any. */
  function CloseAt(s: string, i: nat): (r: Option<nat>)
    requires i <= |s|
    ensures r.Some? ==> i <= r.value && IsMarker(s, r.value) && ClearRun(s, i, r.value)
    ensures r.Some? ==> forall p :: i <= p < r.value ==> !IsMarker(s, p)
    ensures r.None? ==> forall q :: i <= q && IsMarker(s, q) ==> !ClearRun(s, i, q)
    decreases |s| - i
  {
    if IsMarker(s, i) then Some(i)
    else if i < |s| && !IsLineTerminator(s[i]) then CloseAt(s, i + 1)
    else None
  }

  /** `s.replace(/\^\^.*?\^\^/g, '')` as an explicit left-to-right scan: at each position a
      marker is removed when an opening `^^` there finds its lazy closing `^^`; otherwise one
      character is kept and the scan moves on by one. */
  function StripMarkers(s: string): (r: string)
    ensures |r| <= |s|
    decreases |s|
  {
    if |s| == 0 then []
    else if IsMarker(s, 0) && CloseAt(s, 2).Some? then StripMarkers(s[CloseAt(s, 2).value + 2..])
    else [s[0]] + StripMarkers(s[1..])
  }

  /** Text without any caret passes through unchanged. */
  lemma {:induction false} StripWithoutCarets(s: string)
    requires '^' !in s
    ensures StripMarkers(s) == s
    decreases |s|
  {
    if |s| > 0 {
      assert !IsMarker(s, 0);
      assert '^' !in s[1..];
      StripWithoutCarets(s[1..]);
    }
  }

  /** A caret-free prefix is kept as it is, and the scan resumes after it. */
  lemma {:induction false} StripPlainPrefix(x: string, y: string)
    requires '^' !in x
    ensures StripMarkers(x + y) == x + StripMarkers(y)
    decreases |x|
  {
    if |x| > 0 {
      assert !IsMarker(x + y, 0);
      assert (x + y)[1..] == x[1..] + y;
      assert '^' !in x[1..];
      StripPlainPrefix(x[1..], y);
    } else {
      assert x + y == y;
    }
  }

  /** A single-line marker `^^m^^` is deleted entirely, through its first closing `^^`,
      whatever follows it. The note `m` may hold single carets, but no `^^` and no final `^`,
      which would close the marker earlier. */
  lemma StripRemovesMarker(m: string, y: string)
    requires forall p :: 0 <= p < |m| ==> !IsMarker(m + "^", p)
    requires forall k :: 0 <= k < |m| ==> !IsLineTerminator(m[k])
    ensures StripMarkers("^^" + m + "^^" + y) == StripMarkers(y)
  {
    var s := "^^" + m + "^^" + y;
    var q := |m| + 2;
    assert IsMarker(s, 0);
    assert IsMarker(s, q);
    forall p | 2 <= p < q ensures !IsMarker(s, p) {
      var mm := m + "^";
      assert !IsMarker(mm, p - 2);
      assert s[p] == mm[p - 2] && s[p + 1] == mm[p - 1];
    }
    assert ClearRun(s, 2, q) by {
      forall k | 2 <= k < q ensures !IsLineTerminator(s[k]) {
        assert s[k] == m[k - 2];
      }
    }
    assert CloseAt(s, 2) == Some(q);
    assert s[q + 2..] == y;
  }

  /** A line break before every closing `^^` leaves the opening `^^` unmatched. */
  lemma {:induction false} LineBreakBlocksClose(s: string, i: nat, n: nat)
    requires i <= n < |s| && IsLineTerminator(s[n])
    requires forall p :: i <= p < n ==> !IsMarker(s, p)
    ensures CloseAt(s, i).None?
    decreases n - i
  {
    if i < n {
      LineBreakBlocksClose(s, i + 1, n);
    } else {
      assert !IsMarker(s, i) by {
        assert s[i] != '^';
      }
    }
  }

  /** A line break between the opening and the closing `^^` stops the match, because `.`
      does not cross line terminators: the text is then left as it is. */
  lemma LineBreakKeepsMarker(s: string, a: string, b: string)
    requires '^' !in a && '^' !in b
    requires s == "^^" + a + "\n" + b + "^^"
    ensures StripMarkers(s) == s
  {
    var mid := a + "\n" + b;
    assert '^' !in mid;
    assert s == "^^" + mid + "^^";
    assert s[|a| + 2] == '\n';
    assert forall p :: 2 <= p < |a| + 2 ==> s[p] == a[p - 2];
    LineBreakBlocksClose(s, 2, |a| + 2);
    var s1 := "^" + mid + "^^";
    assert s[1..] == s1;
    assert s1[1] == mid[0];
    assert s1[1..] == mid + "^^";
    StripPlainPrefix(mid, "^^");
    StripCaretPair();
    calc {
      StripMarkers(s);
      [s[0]] + StripMarkers(s1);
      "^" + ([s1[0]] + StripMarkers(mid + "^^"));
      "^" + ("^" + (mid + "^^"));
      s;
    }
  }

  /** Two carets alone are not a marker: nothing closes them. */
  lemma StripCaretPair()
    ensures StripMarkers("^^") == "^^"
  {
    assert CloseAt("^^", 2).None?;
    assert "^^"[1..] == "^";
    assert StripMarkers("^") == "^";
  }

  /** No `^^` in the text can still be closed on its own line: the marker pattern has
      nothing left to match. */
  predicate NoClosableMarker(s: string) {
    forall p :: 0 <= p < |s| && IsMarker(s, p) ==> CloseAt(s, p + 2).None?
  }

  /** The closing search reads a text the same way whatever precedes it. */
  lemma {:induction false} CloseShift(pre: string, t: string, i: nat)
    requires i <= |t|
    ensures CloseAt(pre + t, |pre| + i).None? <==> CloseAt(t, i).None?
    decreases |t| - i
  {
    var x := pre + t;
    assert IsMarker(x, |pre| + i) <==> IsMarker(t, i);
    if i < |t| {
      assert x[|pre| + i] == t[i];
      CloseShift(pre, t, i + 1);
    }
  }

  /** Cutting a text short cannot give the closing search a closing `^^` it lacked. */
  lemma {:induction false} CloseInPrefix(y: string, m: nat, i: nat)
    requires i <= m <= |y|
    requires CloseAt(y, i).None?
    ensures CloseAt(y[..m], i).None?
    decreases m - i
  {
    assert IsMarker(y[..m], i) ==> IsMarker(y, i);
    if i < m && !IsLineTerminator(y[i]) {
      CloseInPrefix(y, m, i + 1);
    }
  }

  /** Where no closable `^^` starts at the first character, the scan keeps that character and
      moves on by one. */
  lemma StripKeepsHead(s: string)
    requires |s| > 0 && !(IsMarker(s, 0) && CloseAt(s, 2).Some?)
    ensures StripMarkers(s) == [s[0]] + StripMarkers(s[1..])
  {
  }

  /** Text in which nothing closes from the start still has nothing closing from the start
      once its markers are removed. */
  lemma {:induction false} StripKeepsNoClose(x: string)
    requires CloseAt(x, 0).None?
    ensures CloseAt(StripMarkers(x), 0).None?
    decreases |x|
  {
    if |x| > 0 {
      var r := StripMarkers(x);
      var t := StripMarkers(x[1..]);
      StripKeepsHead(x);
      assert r == [x[0]] + t;
      if !IsLineTerminator(x[0]) {
        CloseShift([x[0]], x[1..], 0);
        assert x == [x[0]] + x[1..];
        StripKeepsNoClose(x[1..]);
        CloseShift([x[0]], t, 0);
        if |x| > 1 && x[0] == '^' {
          assert x[1] != '^';
          StripKeepsHead(x[1..]);
          assert t[0] == x[1];
        }
        assert !IsMarker(r, 0);
      }
    }
  }

  /** The global replace leaves no `^^` that could still be closed on its own line. */
  lemma {:induction false} NoMarkerSurvives(s: string)
    ensures NoClosableMarker(StripMarkers(s))
    decreases |s|
  {
    if |s| > 0 {
      if IsMarker(s, 0) && CloseAt(s, 2).Some? {
        NoMarkerSurvives(s[CloseAt(s, 2).value + 2..]);
      } else {
        var r := StripMarkers(s);
        var t := StripMarkers(s[1..]);
        StripKeepsHead(s);
        NoMarkerSurvives(s[1..]);
        forall p | 0 <= p < |r| && IsMarker(r, p) ensures CloseAt(r, p + 2).None? {
          if p > 0 {
            assert IsMarker(t, p - 1);
            CloseShift([s[0]], t, p + 1);
          } else {
            FrontMarkerUnclosed(s);
          }
        }
      }
    }
  }

  /** A character other than a caret is always kept. */
  lemma StripKeepsPlainHead(x: string)
    requires |x| > 0
    ensures x[0] != '^' ==> StripMarkers(x) == [x[0]] + StripMarkers(x[1..])
  {
  }

  /** When the scan keeps an opening `^` that the output follows with another `^`, the
      input starts with an opening `^^` that nothing closes. */
  lemma SecondIsCaret(s: string)
    requires |s| > 0 && !(IsMarker(s, 0) && CloseAt(s, 2).Some?)
    requires IsMarker(StripMarkers(s), 0)
    ensures IsMarker(s, 0) && CloseAt(s, 2).None?
  {
    StripKeepsHead(s);
    StripKeepsPlainHead(s[1..]);
  }

  /** An opening `^^` that nothing closes: the caret after it cannot open a marker that
      closes either, since its closing `^^` would have closed the first one. */
  lemma SecondKept(s: string)
    requires IsMarker(s, 0) && CloseAt(s, 2).None?
    ensures !(IsMarker(s[1..], 0) && CloseAt(s[1..], 2).Some?)
  {
    if |s| > 2 && s[2] == '^' {
      assert !IsMarker(s, 2);
      assert CloseAt(s, 3).None?;
      assert s == [s[0]] + s[1..];
      CloseShift([s[0]], s[1..], 2);
    }
  }

  /** So the scan keeps both carets of that opening `^^`. */
  lemma KeepsSecondCaret(s: string)
    requires |s| > 0 && !(IsMarker(s, 0) && CloseAt(s, 2).Some?)
    requires IsMarker(StripMarkers(s), 0)
    ensures IsMarker(s, 0) && CloseAt(s, 2).None?
    ensures StripMarkers(s) == s[..2] + StripMarkers(s[2..])
  {
    SecondIsCaret(s);
    SecondKept(s);
    var tail := s[1..];
    StripKeepsHead(s);
    StripKeepsHead(tail);
    ConsTwo(s, StripMarkers(s[2..]));
    assert tail[1..] == s[2..];
  }

  /** Keeping the first two characters one at a time is keeping the first two at once. */
  lemma ConsTwo(s: string, x: string)
    requires |s| >= 2
    ensures [s[0]] + ([s[1..][0]] + x) == s[..2] + x
  {
  }

  /** When the scan keeps an opening `^^`, nothing in the output closes it. */
  lemma FrontMarkerUnclosed(s: string)
    requires |s| > 0 && !(IsMarker(s, 0) && CloseAt(s, 2).Some?)
    requires IsMarker(StripMarkers(s), 0)
    ensures CloseAt(StripMarkers(s), 2).None?
  {
    KeepsSecondCaret(s);
    UnclosedTail(s);
    StripKeepsNoClose(s[2..]);
    TwoBeforeUnclosed(s[..2], StripMarkers(s[2..]));
  }

  /** An opening `^^` at the start that nothing closes leaves nothing closable from the
      start of the rest. */
  lemma UnclosedTail(s: string)
    requires |s| >= 2 && CloseAt(s, 2).None?
    ensures CloseAt(s[2..], 0).None?
  {
    assert s == s[..2] + s[2..];
    CloseShift(s[..2], s[2..], 0);
  }

  /** Two kept characters in front do not let a marker close after them. */
  lemma TwoBeforeUnclosed(pre: string, m: string)
    requires |pre| == 2 && CloseAt(m, 0).None?
    ensures CloseAt(pre + m, 2).None?
  {
    CloseShift(pre, m, 0);
  }

  /** Dropping a prefix cannot make a marker closable: the marker and everything after it
      are unchanged. */
  lemma SuffixKeepsNoMarker(x: string, lo: nat)
    requires lo <= |x| && NoClosableMarker(x)
    ensures NoClosableMarker(x[lo..])
  {
    var y := x[lo..];
    assert x == x[..lo] + y;
    forall p | 0 <= p < |y| && IsMarker(y, p) ensures CloseAt(y, p + 2).None? {
      assert IsMarker(x, lo + p);
      CloseShift(x[..lo], y, p + 2);
    }
  }

  /** Cutting a text short cannot make a marker closable: it only removes closing
      candidates. */
  lemma PrefixKeepsNoMarker(y: string, n: nat)
    requires n <= |y| && NoClosableMarker(y)
    ensures NoClosableMarker(y[..n])
  {
    var c := y[..n];
    forall p | 0 <= p < |c| && IsMarker(c, p) ensures CloseAt(c, p + 2).None? {
      assert IsMarker(y, p);
      CloseInPrefix(y, n, p + 2);
    }
  }

  /** Trimming cannot make a marker closable. */
  lemma TrimKeepsNoMarker(x: string)
    requires NoClosableMarker(x)
    ensures NoClosableMarker(Trim(x))
  {
    var t := TrimStart(x);
    SuffixKeepsNoMarker(x, |x| - |t|);
    var r := TrimEnd(t);
    PrefixKeepsNoMarker(t, |r|);
    assert Trim(x) == r;
  }

  /** The global replace changes nothing in a text where no `^^` can be closed on its line:
      every character that is not part of a removed marker is kept, in order. */
  lemma {:induction false} StripFixesUnmarked(s: string)
    requires NoClosableMarker(s)
    ensures StripMarkers(s) == s
    decreases |s|
  {
    if |s| > 0 {
      assert !(IsMarker(s, 0) && CloseAt(s, 2).Some?);
      SuffixKeepsNoMarker(s, 1);
      StripFixesUnmarked(s[1..]);
      StripKeepsHead(s);
    }
  }

  /** Removing markers a second time removes nothing more. */
  lemma StripIdempotent(s: string)
    ensures StripMarkers(StripMarkers(s)) == StripMarkers(s)
  {
    NoMarkerSurvives(s);
    StripFixesUnmarked(StripMarkers(s));
  }

  /** `cleanText`: an empty text stays empty; otherwise markers are removed and the result
      trimmed, so it neither starts nor ends with whitespace. */
  function CleanText(text: string): (r: string)
    ensures text == [] ==> r == []
    ensures |r| <= |text|
    ensures |r| > 0 ==> !IsWhitespace(r[0]) && !IsWhitespace(r[|r| - 1])
  {
    if text == [] then [] else Trim(StripMarkers(text))
  }

  /** No `^^ ... ^^` pair on one line survives `cleanText`: any `^^` left in the result has
      no closing `^^` after it before the next line break or the end. */
  lemma CleanTextNoMarker(text: string)
    ensures NoClosableMarker(CleanText(text))
  {
    if text != [] {
      NoMarkerSurvives(text);
      TrimKeepsNoMarker(StripMarkers(text));
    }
  }

  /** Text without a closable marker is only trimmed by `cleanText`. */
  lemma CleanTextOfUnmarked(text: string)
    requires NoClosableMarker(text)
    ensures CleanText(text) == Trim(text)
  {
    StripFixesUnmarked(text);
  }

  /** A trailing single-line note such as `apple ^^noun^^` is removed from an answer, with
      the space before it. */
  lemma CleanTextDropsNote(word: string, note: string)
    requires |word| > 0 && !IsWhitespace(word[0]) && !IsWhitespace(word[|word| - 1])
    requires '^' !in word
    requires forall p :: 0 <= p < |note| ==> !IsMarker(note + "^", p)
    requires forall k :: 0 <= k < |note| ==> !IsLineTerminator(note[k])
    ensures CleanText(word + " ^^" + note + "^^") == word
  {
    var text := word + " ^^" + note + "^^";
    var padded := word + " ";
    var marker := "^^" + note + "^^" + "";
    assert text == padded + marker;
    assert '^' !in padded by {
      forall k | 0 <= k < |padded| ensures padded[k] != '^' {
        if k < |word| {
          assert padded[k] == word[k];
        }
      }
    }
    StripRemovesMarker(note, "");
    StripPlainPrefix(padded, marker);
    assert StripMarkers(text) == padded;
    TrimExample(padded, word);
  }

  /** A note may hold a single caret: `a ^^n^b^^` cleans to `a`, the marker being closed by
      its final `^^` and not inside. */
  lemma CleanTextNoteWithCaret()
    ensures CleanText("a ^^n^b^^") == "a"
  {
    var note := "n^b";
    assert forall p :: 0 <= p < |note| ==> !IsMarker(note + "^", p);
    assert "a ^^n^b^^" == "a" + " ^^" + note + "^^";
    CleanTextDropsNote("a", note);
  }

  /** Cleaning a cleaned text changes nothing. */
  lemma CleanTextIdempotent(text: string)
    ensures CleanText(CleanText(text)) == CleanText(text)
  {
    if text != [] && CleanText(text) != [] {
      CleanTextNoMarker(text);
      CleanTextOfUnmarked(CleanText(text));
      TrimIdempotent(StripMarkers(text));
    }
  }

  /** A word followed by one space trims to the word. */
  lemma TrimExample(padded: string, word: string)
    requires padded == word + " "
    requires |word| > 0 && !IsWhitespace(word[0]) && !IsWhitespace(word[|word| - 1])
    ensures Trim(padded) == word
  {
    assert padded[0] == word[0];
    assert TrimStart(padded) == padded;
    assert padded[..|padded| - 1] == word;
    assert TrimEnd(padded) == TrimEnd(word);
    assert TrimEnd(word) == word;
  }
}
