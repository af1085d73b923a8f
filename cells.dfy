/** Cell normalisation: `limpiar` in minka_analitica.py. A cell is a string
    produced by the table extractor, or nothing at all. */
module Cells {
  import opened Wrappers

  /** The ASCII characters that Python's `\s` and `str.strip()` both treat as
      whitespace: tab, line feed, vertical tab, form feed, carriage return,
      the four information separators 0x1C..0x1F, and the blank. */
  predicate IsSpace(c: char)
  {
    c == ' ' || '\t' <= c <= '\r' || '\U{1C}' <= c <= '\U{1F}'
  }

  /** The characters of s that are not whitespace, in order. */
  function NonSpace(s: string): string
  {
    if s == [] then []
    else (if IsSpace(s[0]) then [] else [s[0]]) + NonSpace(s[1..])
  }

  /** No two neighbouring characters are both whitespace. */
  predicate NoDoubleSpace(s: string)
  {
    forall i :: 0 <= i < |s| - 1 ==> !(IsSpace(s[i]) && IsSpace(s[i + 1]))
  }

  /** The only whitespace character in s is the blank. */
  predicate BlanksOnly(s: string)
  {
    forall i :: 0 <= i < |s| && IsSpace(s[i]) ==> s[i] == ' '
  }

  /** Neither end of s is whitespace. */
  predicate Trimmed(s: string)
  {
    s == [] || (!IsSpace(s[0]) && !IsSpace(s[|s| - 1]))
  }

  /** What `limpiar` can return. */
  predicate IsClean(s: string)
  {
    Trimmed(s) && NoDoubleSpace(s) && BlanksOnly(s)
  }

  /** Every character of s is whitespace. */
  predicate AllSpace(s: string)
  {
    forall i :: 0 <= i < |s| ==> IsSpace(s[i])
  }

  /** A word as `str.split()` yields it: non-empty, without whitespace. */
  predicate IsWord(w: string)
  {
    w != [] && forall i :: 0 <= i < |w| ==> !IsSpace(w[i])
  }

  lemma {:induction false} NonSpaceAppend(a: string, b: string)
    ensures NonSpace(a + b) == NonSpace(a) + NonSpace(b)
    decreases |a|
  {
    if a == [] {
      assert a + b == b;
    } else {
      assert (a + b)[1..] == a[1..] + b;
      NonSpaceAppend(a[1..], b);
    }
  }

  /** Drops the leading whitespace of s. */
  function SkipSpaces(s: string): (r: string)
    ensures |r| <= |s|
    ensures r == [] || !IsSpace(r[0])
  {
    if s != [] && IsSpace(s[0]) then SkipSpaces(s[1..]) else s
  }

  /** SkipSpaces keeps a suffix and drops whitespace only. */
  lemma {:induction false} SkipSpacesDrops(s: string)
    ensures SkipSpaces(s) == s[|s| - |SkipSpaces(s)|..]
    ensures AllSpace(s[..|s| - |SkipSpaces(s)|])
    ensures NonSpace(SkipSpaces(s)) == NonSpace(s)
    decreases |s|
  {
    if s != [] && IsSpace(s[0]) {
      var r := SkipSpaces(s[1..]);
      SkipSpacesDrops(s[1..]);
      assert s[..|s| - |r|] == [s[0]] + s[1..][..|s| - 1 - |r|];
    }
  }

  /** Drops the trailing whitespace of s. */
  function SkipTrailingSpaces(s: string): (r: string)
    ensures |r| <= |s| && r == s[..|r|]
    ensures r == [] || !IsSpace(r[|r| - 1])
    ensures AllSpace(s[|r|..])
    ensures NonSpace(r) == NonSpace(s)
  {
    if s != [] && IsSpace(s[|s| - 1]) then
      var init := s[..|s| - 1];
      assert s == init + [s[|s| - 1]];
      NonSpaceAppend(init, [s[|s| - 1]]);
      var r := SkipTrailingSpaces(init);
      assert s[|r|..] == init[|r|..] + [s[|s| - 1]];
      r
    else s
  }

  /** `re.sub(r'\s+', ' ', s)`: every maximal run of whitespace becomes one blank. */
  function CollapseSpaces(s: string): (r: string)
    decreases |s|
    ensures r == [] <==> s == []
    ensures s != [] ==> (IsSpace(r[0]) <==> IsSpace(s[0]))
  {
    if s == [] then []
    else if IsSpace(s[0]) then [' '] + CollapseSpaces(SkipSpaces(s[1..]))
    else [s[0]] + CollapseSpaces(s[1..])
  }

  /** The collapse leaves no two whitespace characters side by side, only
      blanks as whitespace, and every other character in place. */
  lemma {:induction false} CollapseShape(s: string)
    ensures NoDoubleSpace(CollapseSpaces(s)) && BlanksOnly(CollapseSpaces(s))
    ensures NonSpace(CollapseSpaces(s)) == NonSpace(s)
    decreases |s|
  {
    if s != [] {
      if IsSpace(s[0]) {
        SkipSpacesDrops(s[1..]);
        CollapseShape(SkipSpaces(s[1..]));
      } else {
        CollapseShape(s[1..]);
      }
    }
  }

  /** `str.strip()`. */
  function Strip(s: string): (r: string)
    ensures Trimmed(r)
    ensures NonSpace(r) == NonSpace(s)
    ensures NoDoubleSpace(s) ==> NoDoubleSpace(r)
    ensures BlanksOnly(s) ==> BlanksOnly(r)
  {
    var t := SkipSpaces(s);
    var r := SkipTrailingSpaces(t);
    SkipSpacesDrops(s);
    SliceKeepsShape(s, |s| - |t|, |s|);
    SliceKeepsShape(t, 0, |r|);
    r
  }

  /** `strip()` only removes whitespace at the two ends: the result is a
      slice of s with nothing but whitespace before and after it. */
  lemma StripIsSlice(s: string)
    ensures exists lo, hi :: 0 <= lo <= hi <= |s| && Strip(s) == s[lo..hi] && AllSpace(s[..lo]) && AllSpace(s[hi..])
  {
    var t := SkipSpaces(s);
    var r := SkipTrailingSpaces(t);
    SkipSpacesDrops(s);
    var lo, hi := |s| - |t|, |s| - |t| + |r|;
    assert r == s[lo..hi] by {
      forall i | 0 <= i < |r|
        ensures r[i] == s[lo + i]
      {
        assert r[i] == t[i];
      }
    }
    assert s[hi..] == t[|r|..];
  }

  /** A slice of a collapsed string is collapsed. */
  lemma SliceKeepsShape(s: string, lo: nat, hi: nat)
    requires lo <= hi <= |s|
    ensures NoDoubleSpace(s) ==> NoDoubleSpace(s[lo..hi])
    ensures BlanksOnly(s) ==> BlanksOnly(s[lo..hi])
  {
    var u := s[lo..hi];
    assert forall i :: 0 <= i < |u| ==> u[i] == s[lo + i];
  }

  /** `limpiar`: a missing or empty cell is "", any other has its whitespace
      runs collapsed to one blank and is then stripped. */
  function Limpiar(cell: Option<string>): (r: string)
    ensures cell == None || cell == Some("") ==> r == ""
    ensures IsClean(r)
    ensures cell.Some? ==> NonSpace(r) == NonSpace(cell.value)
    ensures cell.Some? ==> r == Join(Words(cell.value), " ")
  {
    match cell
    case None => ""
    case Some(t) =>
      if t == "" then
        assert Words(t) == [];
        ""
      else
        CollapseShape(t);
        LimpiarIsJoinedWords(t);
        Strip(CollapseSpaces(t))
  }

  // ---------------------------------------------------------------- words

  /** The length of the leading run of non-whitespace characters of s. */
  function WordLength(s: string): (k: nat)
    ensures k <= |s|
    ensures forall i :: 0 <= i < k ==> !IsSpace(s[i])
    ensures k < |s| ==> IsSpace(s[k])
  {
    if s == [] || IsSpace(s[0]) then 0
    else
      var k := WordLength(s[1..]);
      assert forall i :: 1 <= i < 1 + k ==> s[i] == s[1..][i - 1];
      1 + k
  }

  /** `str.split()` without arguments: the maximal runs of non-whitespace
      characters of s, in order. */
  function Words(s: string): (ws: seq<string>)
    decreases |s|
  {
    var t := SkipSpaces(s);
    if t == [] then []
    else
      var k := WordLength(t);
      [t[..k]] + Words(t[k..])
  }

  /** Every piece `str.split()` yields is a non-empty run without whitespace. */
  lemma {:induction false} WordsAreWords(s: string)
    ensures forall i :: 0 <= i < |Words(s)| ==> IsWord(Words(s)[i])
    decreases |s|
  {
    var t := SkipSpaces(s);
    if t != [] {
      var k := WordLength(t);
      WordsAreWords(t[k..]);
      assert Words(s) == [t[..k]] + Words(t[k..]);
    }
  }

  /** `sep.join(ws)`. */
  function Join(ws: seq<string>, sep: string): string
  {
    if ws == [] then ""
    else if |ws| == 1 then ws[0]
    else ws[0] + sep + Join(ws[1..], sep)
  }

  /** Words joined by blanks neither start nor end with whitespace. */
  lemma {:induction false} JoinedWordsTrimmed(ws: seq<string>)
    requires ws != [] && forall i :: 0 <= i < |ws| ==> IsWord(ws[i])
    ensures Join(ws, " ") != [] && Trimmed(Join(ws, " "))
    decreases |ws|
  {
    if |ws| > 1 {
      JoinedWordsTrimmed(ws[1..]);
      var j := Join(ws, " ");
      var tail := Join(ws[1..], " ");
      assert j == ws[0] + " " + tail;
      assert j[0] == ws[0][0];
      assert j[|j| - 1] == tail[|tail| - 1];
    }
  }

  /** Leading whitespace disappears in SkipSpaces. */
  lemma {:induction false} SkipSpacesPast(a: string, x: string)
    requires AllSpace(a) && (x == [] || !IsSpace(x[0]))
    ensures SkipSpaces(a + x) == x
    decreases |a|
  {
    if a == [] {
      assert a + x == x;
    } else {
      assert (a + x)[1..] == a[1..] + x;
      SkipSpacesPast(a[1..], x);
    }
  }

  /** Trailing whitespace disappears in SkipTrailingSpaces. */
  lemma {:induction false} SkipTrailingSpacesPast(x: string, b: string)
    requires AllSpace(b) && (x == [] || !IsSpace(x[|x| - 1]))
    ensures SkipTrailingSpaces(x + b) == x
    decreases |b|
  {
    if b == [] {
      assert x + b == x;
    } else {
      assert (x + b)[..|x + b| - 1] == x + b[..|b| - 1];
      SkipTrailingSpacesPast(x, b[..|b| - 1]);
    }
  }

  /** Strip removes whitespace padding around a trimmed text. */
  lemma StripPadding(a: string, x: string, b: string)
    requires AllSpace(a) && AllSpace(b) && Trimmed(x)
    ensures Strip(a + x + b) == (if x == [] then [] else x)
  {
    if x == [] {
      assert a + x + b == a + b;
      assert AllSpace(a + b);
      SkipSpacesPast(a + b, []);
      assert a + b + [] == a + b;
    } else {
      assert a + x + b == a + (x + b);
      SkipSpacesPast(a, x + b);
      SkipTrailingSpacesPast(x, b);
    }
  }

  /** Collapsing a text that starts with a word: the word, then the rest collapsed. */
  lemma {:induction false} CollapseWord(s: string)
    requires s == [] || !IsSpace(s[0])
    ensures CollapseSpaces(s) == s[..WordLength(s)] + CollapseSpaces(s[WordLength(s)..])
    decreases |s|
  {
    if s != [] {
      var t := s[1..];
      var k := WordLength(t);
      assert WordLength(s) == 1 + k;
      assert s[..1 + k] == [s[0]] + t[..k];
      assert s[1 + k..] == t[k..];
      if k > 0 {
        CollapseWord(t);
      }
      var c := CollapseSpaces(t[k..]);
      assert [s[0]] + (t[..k] + c) == [s[0]] + t[..k] + c;
    }
  }

  /** A text that starts with a word splits into that word and the words after it. */
  lemma WordsAfterWord(s: string)
    requires s != [] && !IsSpace(s[0])
    ensures Words(s) == [s[..WordLength(s)]] + Words(s[WordLength(s)..])
  {
    assert SkipSpaces(s) == s;
  }

  /** Leading whitespace collapses to one blank and yields no word. */
  lemma LeadingSpaces(s: string)
    requires s != [] && IsSpace(s[0])
    ensures CollapseSpaces(s) == " " + CollapseSpaces(SkipSpaces(s))
    ensures Words(s) == Words(SkipSpaces(s))
    ensures SkipSpaces(s) == [] || s[|s| - 1] == SkipSpaces(s)[|SkipSpaces(s)| - 1]
    ensures SkipSpaces(s) == [] ==> AllSpace(s)
  {
    var u := SkipSpaces(s);
    assert u == SkipSpaces(s[1..]);
    assert SkipSpaces(u) == u;
    SkipSpacesDrops(s);
    assert s[..|s|] == s;
  }

  /** Collapsing a text without leading whitespace: its words joined by one
      blank, plus one blank when whitespace follows the last word. */
  lemma {:induction false} CollapseWordsUnpadded(s: string)
    requires s == [] || !IsSpace(s[0])
    ensures CollapseSpaces(s) == Join(Words(s), " ") + (if Words(s) != [] && IsSpace(s[|s| - 1]) then " " else "")
    decreases |s|
  {
    if s != [] {
      var k := WordLength(s);
      var w := s[..k];
      var rest := s[k..];
      CollapseWord(s);
      WordsAfterWord(s);
      if rest == [] {
        assert Words(rest) == [];
        assert s[|s| - 1] == w[|w| - 1];
      } else {
        assert s[|s| - 1] == rest[|rest| - 1];
        var u := SkipSpaces(rest);
        LeadingSpaces(rest);
        if u == [] {
          assert IsSpace(rest[|rest| - 1]);
          assert Words(s) == [w];
        } else {
          CollapseWordsUnpadded(u);
          var ws := Words(u);
          var j := Join(ws, " ");
          var tr := if IsSpace(u[|u| - 1]) then " " else "";
          assert ws != [];
          assert Join([w] + ws, " ") == w + " " + j by {
            assert ([w] + ws)[1..] == ws;
          }
          Regroup(w, " ", j, tr);
        }
      }
    }
  }

  lemma Regroup(a: string, b: string, c: string, d: string)
    ensures a + (b + (c + d)) == a + b + c + d
  {
  }

  lemma Regroup3(a: string, b: string, c: string)
    ensures a + (b + c) == a + b + c
  {
  }

  /** Collapsing a text with leading whitespace: one blank, then the text
      after that whitespace collapsed. */
  lemma CollapseWordsPadded(s: string)
    requires s != [] && IsSpace(s[0])
    ensures CollapseSpaces(s) ==
      " " + Join(Words(s), " ") + (if Words(s) != [] && IsSpace(s[|s| - 1]) then " " else "")
  {
    var u := SkipSpaces(s);
    LeadingSpaces(s);
    CollapseWordsUnpadded(u);
    var j := Join(Words(u), " ");
    var tr := if Words(u) != [] && IsSpace(u[|u| - 1]) then " " else "";
    Regroup3(" ", j, tr);
  }

  /** `re.sub(r'\s+', ' ', s)` in words: an optional blank for leading
      whitespace, the words of s joined by exactly one blank, and an optional
      blank for whitespace after the last word. */
  lemma CollapseWords(s: string)
    ensures CollapseSpaces(s) ==
      (if s != [] && IsSpace(s[0]) then " " else "") +
      Join(Words(s), " ") +
      (if Words(s) != [] && IsSpace(s[|s| - 1]) then " " else "")
  {
    var j := Join(Words(s), " ");
    if s != [] && IsSpace(s[0]) {
      CollapseWordsPadded(s);
    } else {
      CollapseWordsUnpadded(s);
      assert [] + j == j;
    }
  }

  /** `limpiar` is `' '.join(t.split())`: the words of the cell, joined by one blank. */
  lemma LimpiarIsJoinedWords(t: string)
    ensures Strip(CollapseSpaces(t)) == Join(Words(t), " ")
  {
    CollapseWords(t);
    var j := Join(Words(t), " ");
    var a := if t != [] && IsSpace(t[0]) then " " else "";
    var b := if Words(t) != [] && IsSpace(t[|t| - 1]) then " " else "";
    if Words(t) != [] {
      WordsAreWords(t);
      JoinedWordsTrimmed(Words(t));
    } else {
      assert j == [];
    }
    StripPadding(a, j, b);
  }

  /** A string that is already clean is left as it is by the collapse. */
  lemma {:induction false} CollapseClean(s: string)
    requires NoDoubleSpace(s) && BlanksOnly(s)
    ensures CollapseSpaces(s) == s
    decreases |s|
  {
    if s != [] {
      if IsSpace(s[0]) {
        assert s[1..] == [] || !IsSpace(s[1]);
        CollapseClean(s[1..]);
      } else {
        CollapseClean(s[1..]);
      }
    }
  }

  /** `limpiar` is idempotent: cleaning a cleaned cell changes nothing. */
  lemma LimpiarIdempotent(cell: Option<string>)
    ensures Limpiar(Some(Limpiar(cell))) == Limpiar(cell)
  {
    var r := Limpiar(cell);
    if r != "" {
      CollapseClean(r);
    }
  }
}
