/**
 The three PHP string built-ins that CodeGen's path helpers are made of:
 `str_replace` with one search string, `explode` on a one-character
 delimiter and `implode`. PHP strings are byte strings; here a string is a
 `seq<char>` and every character stands for one byte.
 */
module PhpStrings {

  /** The search string `pat` starts at position `i` of `s`. */
  predicate OccursAt(s: string, pat: string, i: int)
  {
    0 <= i && i + |pat| <= |s| && s[i..i + |pat|] == pat
  }

  /**
   `str_replace(search, replace, s)`: one pass from left to right that
   replaces every occurrence of `search` not overlapping an earlier
   replaced one; replaced text is never scanned again. An empty search
   string leaves the subject unchanged, and a replacement as long as the
   search string keeps the length.
   */
  function ReplaceAll(s: string, search: string, replace: string): (r: string)
    ensures search == [] ==> r == s
    ensures |replace| == |search| ==> |r| == |s|
    decreases |s|
  {
    if search == [] || |s| < |search| then s
    else if s[..|search|] == search then replace + ReplaceAll(s[|search|..], search, replace)
    else [s[0]] + ReplaceAll(s[1..], search, replace)
  }

  /** Every character of the result comes from the subject or from the replacement. */
  lemma {:induction false} ReplaceAllChars(s: string, search: string, replace: string, c: char)
    requires c in ReplaceAll(s, search, replace)
    ensures c in s || c in replace
    decreases |s|
  {
    if search == [] || |s| < |search| {
    } else if s[..|search|] == search {
      if c !in replace {
        ReplaceAllChars(s[|search|..], search, replace, c);
        assert s == s[..|search|] + s[|search|..];
      }
    } else if c != s[0] {
      ReplaceAllChars(s[1..], search, replace, c);
      assert s == [s[0]] + s[1..];
    }
  }

  /** A subject in which `search` never occurs comes back unchanged. */
  lemma {:induction false} ReplaceAllNoOccurrence(s: string, search: string, replace: string)
    requires forall i :: !OccursAt(s, search, i)
    ensures ReplaceAll(s, search, replace) == s
    decreases |s|
  {
    if search == [] || |s| < |search| {
    } else {
      assert !OccursAt(s, search, 0);
      assert s[..|search|] != search;
      forall i ensures !OccursAt(s[1..], search, i) {
        if OccursAt(s[1..], search, i) {
          assert s[1..][i..i + |search|] == s[i + 1..i + 1 + |search|];
          assert OccursAt(s, search, i + 1);
        }
      }
      ReplaceAllNoOccurrence(s[1..], search, replace);
    }
  }

  /**
   Replacing one character by one character works position by position:
   the length is kept, every `c` becomes `d` and every other character
   stays where it is.
   */
  lemma {:induction false} ReplaceCharPointwise(s: string, c: char, d: char)
    ensures |ReplaceAll(s, [c], [d])| == |s|
    ensures forall i :: 0 <= i < |s| ==>
      ReplaceAll(s, [c], [d])[i] == (if s[i] == c then d else s[i])
    decreases |s|
  {
    if s != [] {
      ReplaceCharPointwise(s[1..], c, d);
      var r := ReplaceAll(s, [c], [d]);
      var rest := ReplaceAll(s[1..], [c], [d]);
      assert s[..1] == [s[0]];
      assert r == [if s[0] == c then d else s[0]] + rest;
      forall i | 0 <= i < |s| ensures r[i] == (if s[i] == c then d else s[i]) {
        if i > 0 {
          assert r[i] == rest[i - 1] && s[i] == s[1..][i - 1];
        }
      }
    }
  }

  /**
   A subject that does not begin with the first character of `search`
   keeps its first character.
   */
  lemma ReplaceAllKeepsHead(s: string, search: string, replace: string)
    requires |s| > 0 && |search| > 0 && s[0] != search[0]
    ensures |ReplaceAll(s, search, replace)| > 0
    ensures ReplaceAll(s, search, replace)[0] == s[0]
  {
    if |s| >= |search| {
      assert s[..|search|][0] == s[0];
    }
  }

  /** An occurrence at the front is replaced and scanning resumes after it. */
  lemma ReplaceAllMatch(t: string, search: string, replace: string)
    requires |search| > 0
    ensures ReplaceAll(search + t, search, replace) == replace + ReplaceAll(t, search, replace)
  {
    assert (search + t)[..|search|] == search;
    assert (search + t)[|search|..] == t;
  }

  /**
   A prefix free of the first character of `search` holds no occurrence
   and is copied unchanged; scanning goes on right after it.
   */
  lemma {:induction false} ReplaceAllSkip(a: string, t: string, search: string, replace: string)
    requires |search| > 0 && search[0] !in a
    ensures ReplaceAll(a + t, search, replace) == a + ReplaceAll(t, search, replace)
    decreases |a|
  {
    if a == [] {
      assert a + t == t;
    } else {
      var s := a + t;
      assert s[0] == a[0] && s[1..] == a[1..] + t;
      if |s| >= |search| {
        assert s[..|search|][0] == a[0];
      }
      assert forall c :: c in a[1..] ==> c in a;
      ReplaceAllSkip(a[1..], t, search, replace);
      assert [a[0]] + (a[1..] + ReplaceAll(t, search, replace)) == a + ReplaceAll(t, search, replace);
    }
  }

  /**
   A character followed by one that cannot continue an occurrence
   is copied unchanged.
   */
  lemma ReplaceAllSkipNear(c: char, t: string, search: string, replace: string)
    requires |search| >= 2 && |t| >= 1 && t[0] != search[1]
    ensures ReplaceAll([c] + t, search, replace) == [c] + ReplaceAll(t, search, replace)
  {
    var s := [c] + t;
    assert s[1..] == t;
    if |s| >= |search| {
      assert s[..|search|][1] == t[0];
    }
  }

  /** A subject lacking some character of `search` holds no occurrence and comes back unchanged. */
  lemma ReplaceAllAbsentChar(s: string, search: string, replace: string, c: char)
    requires c in search && c !in s
    ensures ReplaceAll(s, search, replace) == s
  {
    var k :| 0 <= k < |search| && search[k] == c;
    forall i ensures !OccursAt(s, search, i) {
      if 0 <= i && i + |search| <= |s| {
        assert s[i..i + |search|][k] == s[i + k] != c;
      }
    }
    ReplaceAllNoOccurrence(s, search, replace);
  }

  /** A search string that ends the subject, after a prefix free of its first character, is cut off. */
  lemma ReplaceAllSuffix(a: string, search: string)
    requires |search| > 0 && search[0] !in a
    ensures ReplaceAll(a + search, search, "") == a
  {
    ReplaceAllSkip(a, search, search, "");
    assert search == search + [];
    ReplaceAllMatch([], search, "");
    assert a + [] == a;
  }

  /**
   Occurrences are taken from the left and do not overlap: in "aaa" only
   the first "aa" is replaced.
   */
  lemma ReplaceAllLeftmostNonOverlapping()
    ensures ReplaceAll("aaa", "aa", "b") == "ba"
  {
    var s: string := "aaa";
    assert s[..2] == "aa";
    assert s[2..] == "a";
    assert ReplaceAll("a", "aa", "b") == "a";
  }

  /**
   `explode(sep, s)` for a one-character delimiter: the pieces between
   delimiters, empty pieces included, so there is always at least one.
   */
  function Explode(s: string, sep: char): (parts: seq<string>)
    ensures |parts| >= 1
    ensures forall p :: p in parts ==> sep !in p
    decreases |s|
  {
    if s == [] then [[]]
    else
      var rest := Explode(s[1..], sep);
      if s[0] == sep then [[]] + rest
      else [[s[0]] + rest[0]] + rest[1..]
  }

  /**
   `implode(glue, parts)`: the parts in order with `glue` between neighbours.
   No parts give the empty string; otherwise the first part starts the
   result.
   */
  function Implode(parts: seq<string>, glue: string): (s: string)
    ensures parts == [] ==> s == []
    ensures parts != [] ==> parts[0] <= s
    decreases |parts|
  {
    if parts == [] then []
    else if |parts| == 1 then parts[0]
    else parts[0] + glue + Implode(parts[1..], glue)
  }

  lemma ImplodeConsPrefix(x: string, y: string, t: seq<string>, glue: string)
    ensures Implode([x + y] + t, glue) == x + Implode([y] + t, glue)
  {
    if t != [] {
      assert ([x + y] + t)[1..] == t;
      assert ([y] + t)[1..] == t;
    }
  }

  /** Exploding and imploding again with the same delimiter gives back the subject. */
  lemma {:induction false} ImplodeExplode(s: string, sep: char)
    ensures Implode(Explode(s, sep), [sep]) == s
    decreases |s|
  {
    if s != [] {
      var rest := Explode(s[1..], sep);
      ImplodeExplode(s[1..], sep);
      if s[0] == sep {
        assert ([[]] + rest)[1..] == rest;
        assert Implode([[]] + rest, [sep]) == [] + [sep] + Implode(rest, [sep]);
        assert s == [s[0]] + s[1..];
      } else {
        ImplodeConsPrefix([s[0]], rest[0], rest[1..], [sep]);
        assert [rest[0]] + rest[1..] == rest;
        assert s == [s[0]] + s[1..];
      }
    }
  }

  /** Exploding a subject free of the delimiter yields the subject as the only piece. */
  lemma {:induction false} ExplodeNoSeparator(s: string, sep: char)
    requires sep !in s
    ensures Explode(s, sep) == [s]
    decreases |s|
  {
    if s != [] {
      ExplodeNoSeparator(s[1..], sep);
      assert [s[0]] + s[1..] == s;
    }
  }

  /** The first piece absorbs a delimiter-free prefix. */
  lemma {:induction false} ExplodePrefix(p: string, t: string, sep: char)
    requires sep !in p
    ensures Explode(p + t, sep) == [p + Explode(t, sep)[0]] + Explode(t, sep)[1..]
    decreases |p|
  {
    if p == [] {
      assert p + t == t;
      assert p + Explode(t, sep)[0] == Explode(t, sep)[0];
      assert [Explode(t, sep)[0]] + Explode(t, sep)[1..] == Explode(t, sep);
    } else {
      assert (p + t)[1..] == p[1..] + t;
      assert (p + t)[0] == p[0];
      ExplodePrefix(p[1..], t, sep);
      var e := Explode(t, sep);
      assert [p[0]] + (p[1..] + e[0]) == p + e[0];
    }
  }

  /** A delimiter-free piece followed by the delimiter becomes a piece of its own. */
  lemma ExplodeSegment(p: string, t: string, sep: char)
    requires sep !in p
    ensures Explode(p + [sep] + t, sep) == [p] + Explode(t, sep)
  {
    assert p + [sep] + t == p + ([sep] + t);
    ExplodePrefix(p, [sep] + t, sep);
    assert ([sep] + t)[1..] == t;
    assert p + [] == p;
  }

  /**
   Imploding pieces that do not contain the delimiter and exploding again
   gives back the pieces, so `Explode` and `Implode` are inverse on both sides.
   */
  lemma {:induction false} ExplodeImplode(parts: seq<string>, sep: char)
    requires |parts| >= 1
    requires forall p :: p in parts ==> sep !in p
    ensures Explode(Implode(parts, [sep]), sep) == parts
    decreases |parts|
  {
    if |parts| == 1 {
      ExplodeNoSeparator(parts[0], sep);
    } else {
      var t := Implode(parts[1..], [sep]);
      assert parts[0] in parts;
      assert Implode(parts, [sep]) == parts[0] + ([sep] + t);
      ExplodePrefix(parts[0], [sep] + t, sep);
      assert ([sep] + t)[1..] == t;
      assert forall p :: p in parts[1..] ==> p in parts;
      ExplodeImplode(parts[1..], sep);
      assert Explode([sep] + t, sep) == [[]] + parts[1..];
      assert parts[0] + [] == parts[0];
      assert [parts[0]] + parts[1..] == parts;
    }
  }

  /** A delimiter-free piece, the delimiter, and the rest: the piece is copied and the delimiter replaced. */
  lemma ReplaceAfterPiece(piece: string, t: string, sep: char, glue: char)
    requires sep !in piece
    ensures ReplaceAll(piece + ([sep] + t), [sep], [glue]) == piece + ([glue] + ReplaceAll(t, [sep], [glue]))
  {
    ReplaceAllSkip(piece, [sep] + t, [sep], [glue]);
    ReplaceAllMatch(t, [sep], [glue]);
  }

  /**
   Replacing the delimiter character of an imploded list by another
   character is the same as imploding with that other character.
   */
  lemma {:induction false} ReplaceGlue(parts: seq<string>, sep: char, glue: char)
    requires forall p :: p in parts ==> sep !in p
    ensures ReplaceAll(Implode(parts, [sep]), [sep], [glue]) == Implode(parts, [glue])
    decreases |parts|
  {
    if parts == [] {
    } else if |parts| == 1 {
      assert parts[0] in parts;
      assert parts[0] == parts[0] + [];
      ReplaceAllSkip(parts[0], [], [sep], [glue]);
    } else {
      var t := Implode(parts[1..], [sep]);
      assert parts[0] in parts;
      calc {
        ReplaceAll(Implode(parts, [sep]), [sep], [glue]);
        { assert Implode(parts, [sep]) == parts[0] + ([sep] + t); }
        ReplaceAll(parts[0] + ([sep] + t), [sep], [glue]);
        { ReplaceAfterPiece(parts[0], t, sep, glue); }
        parts[0] + ([glue] + ReplaceAll(t, [sep], [glue]));
        { assert forall p :: p in parts[1..] ==> p in parts;
          ReplaceGlue(parts[1..], sep, glue); }
        parts[0] + ([glue] + Implode(parts[1..], [glue]));
        Implode(parts, [glue]);
      }
    }
  }

  /** Exploding yields exactly one piece more than there are delimiters. */
  lemma {:induction false} ExplodeCount(s: string, sep: char)
    ensures |Explode(s, sep)| == multiset(s)[sep] + 1
    decreases |s|
  {
    if s != [] {
      ExplodeCount(s[1..], sep);
      assert s == [s[0]] + s[1..];
      assert multiset(s) == multiset([s[0]]) + multiset(s[1..]);
    }
  }
}
