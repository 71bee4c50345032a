/** The handful of Python `str` operations the transcoder is built from, with
    their CPython semantics for the cases the transcoder reaches:
    `str.split(sep)` with an explicit one-character separator, `str.partition`,
    `str.count` of one character, `re.sub` of a one-character pattern or of a
    character class with an empty replacement, and `str.strip`/`str.rstrip`. */
module PyStr {
  import opened PyList

  /** Number of occurrences of `c` in `s` (`s.count(c)` for a one-character `c`). */
  function Count(s: string, c: char): (n: nat)
    ensures n <= |s|
    ensures n == 0 <==> c !in s
  {
    if |s| == 0 then 0
    else (if s[0] == c then 1 else 0) + Count(s[1..], c)
  }

  lemma {:induction false} CountConcat(a: string, b: string, c: char)
    ensures Count(a + b, c) == Count(a, c) + Count(b, c)
  {
    if |a| > 0 {
      assert (a + b)[1..] == a[1..] + b;
      CountConcat(a[1..], b, c);
    } else {
      assert a + b == b;
    }
  }

  /** `s.split(sep)`: the maximal pieces between occurrences of `sep`. There is
      always at least one piece, one more than there are separators. */
  function Split(s: string, sep: char): (parts: seq<string>)
    ensures |parts| == Count(s, sep) + 1
    decreases |s|
  {
    if |s| == 0 then [""]
    else
      var rest := Split(s[1..], sep);
      if s[0] == sep then [""] + rest
      else [[s[0]] + rest[0]] + rest[1..]
  }

  /** `sep.join(parts)`, the inverse of `Split`. */
  function Join(parts: seq<string>, sep: char): string
  {
    if |parts| == 0 then ""
    else if |parts| == 1 then parts[0]
    else parts[0] + [sep] + Join(parts[1..], sep)
  }

  /** Splitting and joining again gives back the text. */
  lemma {:induction false} JoinSplit(s: string, sep: char)
    ensures Join(Split(s, sep), sep) == s
    decreases |s|
  {
    if |s| > 0 {
      var rest := Split(s[1..], sep);
      JoinSplit(s[1..], sep);
      if s[0] == sep {
        assert Split(s, sep) == [""] + rest;
        assert ([""] + rest)[1..] == rest;
      } else {
        var parts := [[s[0]] + rest[0]] + rest[1..];
        if |rest| == 1 {
          assert Join(parts, sep) == [s[0]] + rest[0];
        } else {
          assert parts[1..] == rest[1..];
          assert Join(rest, sep) == rest[0] + [sep] + Join(rest[1..], sep);
        }
        assert [s[0]] + s[1..] == s;
      }
    }
  }

  /** No piece contains the separator. */
  lemma {:induction false} SplitPiecesLackSep(s: string, sep: char, k: nat)
    requires k < |Split(s, sep)|
    ensures sep !in Split(s, sep)[k]
    decreases |s|
  {
    if |s| > 0 {
      var rest := Split(s[1..], sep);
      if s[0] == sep {
        if k > 0 {
          SplitPiecesLackSep(s[1..], sep, k - 1);
        }
      } else if k == 0 {
        SplitPiecesLackSep(s[1..], sep, 0);
        assert Split(s, sep)[0] == [s[0]] + rest[0];
      } else {
        SplitPiecesLackSep(s[1..], sep, k);
        assert Split(s, sep)[k] == rest[k];
      }
    }
  }

  /** A character other than the separator joins the first piece. */
  lemma SplitCons(c: char, b: string, sep: char)
    requires c != sep
    ensures Split([c] + b, sep) == [[c] + Split(b, sep)[0]] + Split(b, sep)[1..]
  {
    assert ([c] + b)[1..] == b;
  }

  /** A prefix without the separator glues onto the first piece of what follows. */
  lemma {:induction false} SplitPrefix(a: string, b: string, sep: char)
    requires sep !in a
    ensures Split(a + b, sep) == [a + Split(b, sep)[0]] + Split(b, sep)[1..]
    decreases |a|
  {
    var parts := Split(b, sep);
    if |a| == 0 {
      assert a + b == b && a + parts[0] == parts[0];
      assert [parts[0]] + parts[1..] == parts;
    } else {
      var c, t := a[0], a[1..];
      assert a == [c] + t;
      assert c != sep && sep !in t;
      SplitPrefix(t, b, sep);
      SplitCons(c, t + b, sep);
      ConsAppend(c, t, b);
      ConsAppend(c, t, parts[0]);
    }
  }

  lemma ConsAppend(c: char, x: string, y: string)
    ensures [c] + (x + y) == ([c] + x) + y
  {
  }

  /** The same, piece by piece: only the first piece gains the prefix. */
  lemma SplitPrefixPieces(a: string, b: string, sep: char)
    requires sep !in a
    ensures var whole, parts := Split(a + b, sep), Split(b, sep);
      |whole| == |parts| && whole[0] == a + parts[0] &&
      forall k :: 1 <= k < |whole| ==> whole[k] == parts[k]
  {
    SplitPrefix(a, b, sep);
  }

  /** Text without the separator is one piece. */
  lemma SplitNoSep(s: string, sep: char)
    requires sep !in s
    ensures Split(s, sep) == [s]
  {
    SplitPrefix(s, "", sep);
    assert s + "" == s;
  }

  /** The first piece ends at the first separator, and the rest of the text
      is split on its own. */
  lemma SplitAtFirst(a: string, b: string, sep: char)
    requires sep !in a
    ensures Split(a + [sep] + b, sep) == [a] + Split(b, sep)
  {
    var t := [sep] + b;
    assert t[1..] == b;
    SplitPrefix(a, t, sep);
    assert a + [sep] + b == a + t;
    assert a + "" == a;
  }

  /** Text ending with the separator ends with an empty piece. */
  lemma {:induction false} SplitLastEmpty(s: string, sep: char)
    requires |s| > 0 && s[|s| - 1] == sep
    ensures Last(Split(s, sep)) == ""
    decreases |s|
  {
    if |s| == 1 {
      assert s[1..] == "";
    } else {
      var rest := Split(s[1..], sep);
      SplitLastEmpty(s[1..], sep);
      assert sep in s[1..] by { assert s[1..][|s| - 2] == sep; }
      assert |rest| >= 2;
    }
  }

  /** Every character of every piece comes from the text. */
  lemma {:induction false} SplitChars(s: string, sep: char, k: nat, c: char)
    requires k < |Split(s, sep)| && c in Split(s, sep)[k]
    ensures c in s
    decreases |s|
  {
    if |s| > 0 {
      var rest := Split(s[1..], sep);
      if s[0] == sep {
        assert k > 0 && Split(s, sep)[k] == rest[k - 1];
        SplitChars(s[1..], sep, k - 1, c);
      } else if k == 0 {
        if c != s[0] {
          assert c in rest[0];
          SplitChars(s[1..], sep, 0, c);
        }
      } else {
        assert Split(s, sep)[k] == rest[k];
        SplitChars(s[1..], sep, k, c);
      }
    }
  }

  /** `s.partition(sep)`: the text before the first `sep`, the separator itself
      (empty when absent) and the text after it. */
  function Partition(s: string, sep: char): (r: (string, string, string))
    ensures r.0 + r.1 + r.2 == s
    ensures sep !in r.0
    ensures r.1 == (if sep in s then [sep] else "")
    ensures sep !in s ==> r.0 == s && r.2 == ""
    decreases |s|
  {
    if |s| == 0 then ("", "", "")
    else if s[0] == sep then ("", [sep], s[1..])
    else
      var r := Partition(s[1..], sep);
      ([s[0]] + r.0, r.1, r.2)
  }

  /** `partition` cuts at the first occurrence of the separator. */
  lemma {:induction false} PartitionAt(a: string, b: string, sep: char)
    requires sep !in a
    ensures Partition(a + [sep] + b, sep) == (a, [sep], b)
    decreases |a|
  {
    var s := a + [sep] + b;
    if |a| == 0 {
      assert s == [sep] + b && s[1..] == b;
    } else {
      assert s[0] == a[0] && s[1..] == a[1..] + [sep] + b;
      PartitionAt(a[1..], b, sep);
      assert [a[0]] + a[1..] == a;
    }
  }

  /** `re.sub(from, to, s)` for a pattern that is one literal character. */
  function ReplaceChar(s: string, from: char, to: char): (r: string)
    ensures |r| == |s|
    ensures forall i :: 0 <= i < |s| ==> r[i] == (if s[i] == from then to else s[i])
    decreases |s|
  {
    if |s| == 0 then ""
    else [if s[0] == from then to else s[0]] + ReplaceChar(s[1..], from, to)
  }

  /** A character other than `from` and `to` keeps its number of occurrences. */
  lemma {:induction false} ReplaceCharCount(s: string, from: char, to: char, c: char)
    requires c != from && c != to
    ensures Count(ReplaceChar(s, from, to), c) == Count(s, c)
    decreases |s|
  {
    if |s| > 0 {
      var r := ReplaceChar(s, from, to);
      ReplaceCharCount(s[1..], from, to, c);
      assert s == [s[0]] + s[1..];
      assert r == [r[0]] + ReplaceChar(s[1..], from, to);
      CountConcat([s[0]], s[1..], c);
      CountConcat([r[0]], ReplaceChar(s[1..], from, to), c);
    }
  }

  /** `re.sub("[...]", "", s)` for a character class: deletes every character the
      class matches and keeps the others in order. */
  function DeleteMatching(s: string, matches: char -> bool): (r: string)
    ensures |r| <= |s|
    ensures forall i :: 0 <= i < |r| ==> !matches(r[i])
    ensures (forall i :: 0 <= i < |s| ==> !matches(s[i])) ==> r == s
    ensures (forall i :: 0 <= i < |s| ==> matches(s[i])) ==> r == ""
    decreases |s|
  {
    if |s| == 0 then ""
    else if matches(s[0]) then DeleteMatching(s[1..], matches)
    else [s[0]] + DeleteMatching(s[1..], matches)
  }

  lemma {:induction false} DeleteMatchingConcat(a: string, b: string, matches: char -> bool)
    ensures DeleteMatching(a + b, matches) == DeleteMatching(a, matches) + DeleteMatching(b, matches)
    decreases |a|
  {
    if |a| > 0 {
      assert (a + b)[1..] == a[1..] + b;
      DeleteMatchingConcat(a[1..], b, matches);
    } else {
      assert a + b == b;
    }
  }

  /** A character the class does not match keeps its number of occurrences. */
  lemma {:induction false} DeleteMatchingCount(s: string, matches: char -> bool, c: char)
    requires !matches(c)
    ensures Count(DeleteMatching(s, matches), c) == Count(s, c)
    decreases |s|
  {
    if |s| > 0 {
      DeleteMatchingCount(s[1..], matches, c);
      assert s == [s[0]] + s[1..];
      CountConcat([s[0]], s[1..], c);
      if !matches(s[0]) {
        CountConcat([s[0]], DeleteMatching(s[1..], matches), c);
      }
    }
  }

  /** A last character the class does not match stays the last character. */
  lemma DeleteMatchingKeepsLast(s: string, matches: char -> bool)
    requires |s| > 0 && !matches(Last(s))
    ensures |DeleteMatching(s, matches)| > 0 && Last(DeleteMatching(s, matches)) == Last(s)
  {
    var c := s[|s| - 1];
    assert s == s[..|s| - 1] + [c];
    DeleteMatchingConcat(s[..|s| - 1], [c], matches);
    assert DeleteMatching([c], matches) == [c];
  }

  /** Characters Python's `str.isspace` accepts (the argument-less `strip`). */
  predicate IsSpace(c: char)
  {
    '\t' <= c <= '\r' || '\U{1C}' <= c <= ' ' || c == '\U{85}' || c == '\U{A0}'
    || c == '\U{1680}' || '\U{2000}' <= c <= '\U{200A}' || c == '\U{2028}' || c == '\U{2029}'
    || c == '\U{202F}' || c == '\U{205F}' || c == '\U{3000}'
  }

  /** `s.lstrip(chars)`: drops the longest prefix of characters in the set. */
  function LStrip(s: string, strip: char -> bool): (r: string)
    ensures |r| <= |s| && (|r| == |s| ==> r == s)
    decreases |s|
  {
    if |s| > 0 && strip(s[0]) then LStrip(s[1..], strip) else s
  }

  /** `s.rstrip(chars)`: drops the longest suffix of characters in the set. */
  function RStrip(s: string, strip: char -> bool): (r: string)
    ensures |r| <= |s| && (|r| == |s| ==> r == s)
    decreases |s|
  {
    if |s| > 0 && strip(s[|s| - 1]) then RStrip(s[..|s| - 1], strip) else s
  }

  /** `lstrip` keeps a suffix, and what it drops is all strippable, up to the
      first character that is not. */
  lemma {:induction false} LStripSpec(s: string, strip: char -> bool)
    ensures var r := LStrip(s, strip);
      |r| <= |s| && r == s[|s| - |r|..] &&
      (forall i :: 0 <= i < |s| - |r| ==> strip(s[i])) &&
      (|r| == 0 || !strip(r[0]))
    decreases |s|
  {
    if |s| > 0 && strip(s[0]) {
      LStripSpec(s[1..], strip);
    }
  }

  /** `rstrip` keeps a prefix, and what it drops is all strippable, back to
      the last character that is not. */
  lemma {:induction false} RStripSpec(s: string, strip: char -> bool)
    ensures var r := RStrip(s, strip);
      |r| <= |s| && r == s[..|r|] &&
      (forall i :: |r| <= i < |s| ==> strip(s[i])) &&
      (|r| == 0 || !strip(r[|r| - 1]))
    decreases |s|
  {
    if |s| > 0 && strip(s[|s| - 1]) {
      RStripSpec(s[..|s| - 1], strip);
    }
  }

  /** Strippable characters after a text that does not end with one are
      exactly what `rstrip` removes. */
  lemma {:induction false} RStripSuffix(s: string, e: string, strip: char -> bool)
    requires |s| == 0 || !strip(s[|s| - 1])
    requires forall j :: 0 <= j < |e| ==> strip(e[j])
    ensures RStrip(s + e, strip) == s
    decreases |e|
  {
    if |e| == 0 {
      assert s + e == s;
    } else {
      var t := s + e;
      assert t[..|t| - 1] == s + e[..|e| - 1];
      RStripSuffix(s, e[..|e| - 1], strip);
    }
  }

  /** `s.strip()`: both ends, Python whitespace. */
  function Strip(s: string): (r: string)
    ensures |r| <= |s|
    ensures |r| == 0 || (!IsSpace(r[0]) && !IsSpace(r[|r| - 1]))
  {
    var l := LStrip(s, IsSpace);
    LStripSpec(s, IsSpace);
    RStripSpec(l, IsSpace);
    RStrip(l, IsSpace)
  }

  /** `strip()` leaves the piece of the text that starts after the leading
      whitespace: it has no whitespace at either end, and only whitespace is
      cut off around it. */
  lemma StripSpec(s: string)
    ensures var r, i := Strip(s), |s| - |LStrip(s, IsSpace)|;
      (|r| == 0 || (!IsSpace(r[0]) && !IsSpace(r[|r| - 1]))) &&
      0 <= i && i + |r| <= |s| && s[i..i + |r|] == r &&
      (forall j :: 0 <= j < i ==> IsSpace(s[j])) &&
      (forall j :: i + |r| <= j < |s| ==> IsSpace(s[j]))
  {
    var l := LStrip(s, IsSpace);
    LStripSpec(s, IsSpace);
    RStripSpec(l, IsSpace);
    var r := RStrip(l, IsSpace);
    var i := |s| - |l|;
    PrefixOfSuffix(s, i, |r|);
    forall j | i + |r| <= j < |s| ensures IsSpace(s[j]) {
      assert s[j] == l[j - i];
    }
  }

  /** Text that starts and ends with a non-space is left as it is. */
  lemma StripUnspaced(s: string)
    requires |s| == 0 || (!IsSpace(s[0]) && !IsSpace(s[|s| - 1]))
    ensures Strip(s) == s
  {
    if |s| > 0 {
      assert LStrip(s, IsSpace) == s;
    }
  }
}
