/**
 * The Ruby string operations the connection engine relies on, over strings as
 * sequences of characters: `String#strip`, the awk-style `split(' ')` (with and
 * without a limit of 2) and `split('.')`.
 */
module RubyText {

  /** The characters Ruby's awk-style `split(' ')` separates on. */
  predicate IsSpace(c: char)
  {
    c == ' ' || c == '\t' || c == '\n' || c == '\U{B}' || c == '\U{C}' || c == '\r'
  }

  /** The characters `String#strip` removes: whitespace and NUL. */
  predicate IsStripChar(c: char)
  {
    c == '\0' || IsSpace(c)
  }

  /** A non-empty run of non-whitespace characters: one field of an awk-style split. */
  predicate IsToken(w: string)
  {
    w != [] && forall i :: 0 <= i < |w| ==> !IsSpace(w[i])
  }

  // ---------------------------------------------------------------- strip

  /** `String#lstrip`. */
  function StripLeading(s: string): (r: string)
    ensures |r| <= |s| && r == s[|s| - |r|..]
    ensures forall i :: 0 <= i < |s| - |r| ==> IsStripChar(s[i])
    ensures r == [] || !IsStripChar(r[0])
  {
    if s != [] && IsStripChar(s[0]) then StripLeading(s[1..]) else s
  }

  /** `String#rstrip`. */
  function StripTrailing(s: string): (r: string)
    ensures |r| <= |s| && r == s[..|r|]
    ensures forall i :: |r| <= i < |s| ==> IsStripChar(s[i])
    ensures r == [] || !IsStripChar(r[|r| - 1])
  {
    if s != [] && IsStripChar(s[|s| - 1]) then StripTrailing(s[..|s| - 1]) else s
  }

  /** Cutting whitespace and NUL off the end of a suffix of `s` cuts off only such characters of `s`. */
  lemma {:induction false} StripSlice(s: string, t: string, r: string)
    requires |t| <= |s| && t == s[|s| - |t|..]
    requires |r| <= |t| && r == t[..|r|]
    requires forall i :: |r| <= i < |t| ==> IsStripChar(t[i])
    ensures forall i :: |s| - |t| + |r| <= i < |s| ==> IsStripChar(s[i])
  {
    var a := |s| - |t|;
    forall i | a + |r| <= i < |s|
      ensures IsStripChar(s[i])
    {
      assert s[i] == t[i - a];
    }
  }

  /** `String#strip`: the slice of `s` left when whitespace and NUL are removed at both ends. */
  function Strip(s: string): (r: string)
    ensures |r| <= |s|
    ensures r == [] || (!IsStripChar(r[0]) && !IsStripChar(r[|r| - 1]))
    ensures r == [] <==> forall i :: 0 <= i < |s| ==> IsStripChar(s[i])
    ensures |r| <= |StripLeading(s)| && r == StripLeading(s)[..|r|]
    ensures forall i :: 0 <= i < |s| - |StripLeading(s)| ==> IsStripChar(s[i])
    ensures forall i :: |s| - |StripLeading(s)| + |r| <= i < |s| ==> IsStripChar(s[i])
  {
    var t := StripLeading(s);
    var r := StripTrailing(t);
    assert r == [] ==> t == [];
    StripSlice(s, t, r);
    r
  }

  // ----------------------------------------------------- awk-style split

  /** Drops the whitespace at the head of `s`. */
  function DropSpaces(s: string): (r: string)
    ensures |r| <= |s| && r == s[|s| - |r|..]
    ensures forall i :: 0 <= i < |s| - |r| ==> IsSpace(s[i])
    ensures r == [] || !IsSpace(r[0])
  {
    if s != [] && IsSpace(s[0]) then DropSpaces(s[1..]) else s
  }

  /** The longest prefix of `s` without whitespace. */
  function Word(s: string): (w: string)
    ensures |w| <= |s| && w == s[..|w|]
    ensures forall i :: 0 <= i < |w| ==> !IsSpace(w[i])
    ensures |w| == |s| || IsSpace(s[|w|])
  {
    if s == [] || IsSpace(s[0]) then [] else [s[0]] + Word(s[1..])
  }

  /** The characters of `s` that are not whitespace, in order. */
  function NonSpaces(s: string): string
  {
    if s == [] then [] else (if IsSpace(s[0]) then [] else [s[0]]) + NonSpaces(s[1..])
  }

  /** Concatenates strings in order. */
  function Concat(ss: seq<string>): string
  {
    if ss == [] then [] else ss[0] + Concat(ss[1..])
  }

  lemma {:induction false} NonSpacesAppend(a: string, b: string)
    ensures NonSpaces(a + b) == NonSpaces(a) + NonSpaces(b)
  {
    if a != [] {
      assert (a + b)[1..] == a[1..] + b;
      NonSpacesAppend(a[1..], b);
    } else {
      assert a + b == b;
    }
  }

  lemma {:induction false} NonSpacesOfSpaces(s: string)
    requires forall i :: 0 <= i < |s| ==> IsSpace(s[i])
    ensures NonSpaces(s) == []
  {
    if s != [] {
      NonSpacesOfSpaces(s[1..]);
    }
  }

  lemma {:induction false} NonSpacesOfWord(w: string)
    requires forall i :: 0 <= i < |w| ==> !IsSpace(w[i])
    ensures NonSpaces(w) == w
  {
    if w != [] {
      NonSpacesOfWord(w[1..]);
      assert w == [w[0]] + w[1..];
    }
  }

  /**
   * `s.split(' ')`: the maximal runs of non-whitespace characters, in order.
   * There are none exactly when `s` is all whitespace, and together they hold
   * every non-whitespace character of `s`, in order.
   */
  function Fields(s: string): (fs: seq<string>)
    ensures forall k :: 0 <= k < |fs| ==> IsToken(fs[k])
    ensures fs == [] <==> forall i :: 0 <= i < |s| ==> IsSpace(s[i])
    ensures Concat(fs) == NonSpaces(s)
    decreases |s|
  {
    var t := DropSpaces(s);
    DropSpacesKeeps(s);
    if t == [] then []
    else
      var w := Word(t);
      var rest := t[|w|..];
      WordSplits(t);
      var fs := Fields(rest);
      var r := [w] + fs;
      assert r[1..] == fs;
      assert forall k | 0 <= k < |r| :: IsToken(r[k]) by {
        forall k | 0 <= k < |r|
          ensures IsToken(r[k])
        {
          if k == 0 {
            assert r[k] == w;
          } else {
            assert r[k] == fs[k - 1];
          }
        }
      }
      r
  }

  /** Dropping leading whitespace keeps the non-whitespace characters, and leaves nothing only for all-whitespace text. */
  lemma {:induction false} DropSpacesKeeps(s: string)
    ensures NonSpaces(DropSpaces(s)) == NonSpaces(s)
    ensures DropSpaces(s) == [] <==> forall i :: 0 <= i < |s| ==> IsSpace(s[i])
  {
    var t := DropSpaces(s);
    var a := |s| - |t|;
    var g := s[..a];
    assert s == g + t;
    assert forall i :: 0 <= i < |g| ==> IsSpace(g[i]);
    NonSpacesOfSpaces(g);
    NonSpacesAppend(g, t);
    if t != [] {
      assert s[a] == t[0];
      assert !IsSpace(s[a]);
    }
  }

  /** Text starting with a non-whitespace character is its first word followed by the rest. */
  lemma WordSplits(t: string)
    requires t != [] && !IsSpace(t[0])
    ensures var w := Word(t);
      w != [] && |t[|w|..]| < |t| && NonSpaces(t) == w + NonSpaces(t[|w|..])
  {
    var w := Word(t);
    var rest := t[|w|..];
    assert t == w + rest;
    NonSpacesAppend(w, rest);
    NonSpacesOfWord(w);
  }

  /**
   * `s.split(' ', 2)`: the first field, and everything after the whitespace
   * that follows it (kept verbatim) when there is anything after it. A
   * non-empty all-whitespace string gives `[""]`; the empty string gives `[]`.
   */
  function SplitTwo(s: string): (parts: seq<string>)
    ensures |parts| <= 2
  {
    if s == [] then []
    else
      var t := DropSpaces(s);
      if t == [] then [""]
      else
        var w := Word(t);
        var rest := t[|w|..];
        if rest == [] then [w] else [w, DropSpaces(rest)]
  }

  /** Joins words with a separator character. */
  function Join(ws: seq<string>, sep: char): (s: string)
    requires |ws| >= 1
  {
    if |ws| == 1 then ws[0] else ws[0] + [sep] + Join(ws[1..], sep)
  }

  lemma DropSpacesOfStart(s: string)
    requires s == [] || !IsSpace(s[0])
    ensures DropSpaces(s) == s
  {
  }

  lemma {:induction false} WordOfToken(w: string, rest: string)
    requires forall i :: 0 <= i < |w| ==> !IsSpace(w[i])
    requires rest == [] || IsSpace(rest[0])
    ensures Word(w + rest) == w
  {
    if w != [] {
      assert (w + rest)[1..] == w[1..] + rest;
      WordOfToken(w[1..], rest);
    }
  }

  /** Fields ignores leading whitespace. */
  lemma FieldsAfterSpaces(s: string)
    ensures Fields(DropSpaces(s)) == Fields(s)
  {
    DropSpacesOfStart(DropSpaces(s));
  }

  /** A whitespace character in front changes no field. */
  lemma FieldsAfterSpace(x: char, j: string)
    requires IsSpace(x)
    ensures Fields([x] + j) == Fields(j)
  {
    assert ([x] + j)[1..] == j;
    assert DropSpaces([x] + j) == DropSpaces(j);
    FieldsAfterSpaces([x] + j);
    FieldsAfterSpaces(j);
  }

  /**
   * `split(' ')` cuts at every whitespace character: the fields of text with
   * a whitespace character in it are the fields before it followed by the
   * fields after it. With `FieldsOfToken` and the all-whitespace case of
   * `Fields`, this fixes the fields of every string.
   */
  lemma {:induction false} FieldsAtSpace(a: string, c: char, b: string)
    requires IsSpace(c)
    ensures Fields(a + [c] + b) == Fields(a) + Fields(b)
    decreases |a|
  {
    if a == [] {
      assert a + [c] + b == [c] + b;
      FieldsAfterSpace(c, b);
    } else if IsSpace(a[0]) {
      var a' := a[1..];
      assert a == [a[0]] + a';
      FieldsAtSpace(a', c, b);
      FieldsAtSpaceAfterSpace(a[0], a', c, b);
    } else {
      var w := Word(a);
      var r := a[|w|..];
      assert w != [];
      assert a == w + r;
      FieldsAtSpace(r, c, b);
      FieldsAtSpaceAfterWord(w, r, c, b);
    }
  }

  /** Concatenation regrouped: `p + q + r + t` is `p` followed by the rest. */
  lemma Regroup<T>(p: seq<T>, q: seq<T>, r: seq<T>, t: seq<T>)
    ensures p + q + r + t == p + (q + r + t)
  {
  }

  /** Concatenation regrouped: `p + q + r` is `p` followed by the rest. */
  lemma Regroup3<T>(p: seq<T>, q: seq<T>, r: seq<T>)
    ensures p + q + r == p + (q + r)
  {
  }

  /** The step of `FieldsAtSpace` for text that starts with whitespace. */
  lemma FieldsAtSpaceAfterSpace(x: char, a: string, c: char, b: string)
    requires IsSpace(x) && IsSpace(c)
    requires Fields(a + [c] + b) == Fields(a) + Fields(b)
    ensures Fields([x] + a + [c] + b) == Fields([x] + a) + Fields(b)
  {
    Regroup([x], a, [c], b);
    FieldsAfterSpace(x, a + [c] + b);
    FieldsAfterSpace(x, a);
  }

  /** The step of `FieldsAtSpace` for text that starts with a token. */
  lemma FieldsAtSpaceAfterWord(w: string, r: string, c: char, b: string)
    requires IsToken(w) && (r == [] || IsSpace(r[0])) && IsSpace(c)
    requires Fields(r + [c] + b) == Fields(r) + Fields(b)
    ensures Fields(w + r + [c] + b) == Fields(w + r) + Fields(b)
  {
    var r' := r + [c] + b;
    assert r' == [] || IsSpace(r'[0]) by {
      if r == [] { assert r'[0] == c; } else { assert r'[0] == r[0]; }
    }
    Regroup(w, r, [c], b);
    FieldsOfToken(w, r);
    FieldsOfToken(w, r');
    Regroup3([w], Fields(r), Fields(b));
  }

  /** A token followed by whitespace (or nothing) is the first field. */
  lemma FieldsOfToken(t: string, rest: string)
    requires IsToken(t)
    requires rest == [] || IsSpace(rest[0])
    ensures Fields(t + rest) == [t] + Fields(rest)
  {
    var s := t + rest;
    WordOfToken(t, rest);
    DropSpacesOfStart(s);
    assert s[|t|..] == rest;
  }

  /** Splitting the space-joined tokens gives the tokens back. */
  lemma {:induction false} FieldsOfJoin(ts: seq<string>)
    requires |ts| >= 1
    requires forall k :: 0 <= k < |ts| ==> IsToken(ts[k])
    ensures Fields(Join(ts, ' ')) == ts
  {
    if |ts| == 1 {
      FieldsOfSingle(ts[0]);
      assert ts == [ts[0]];
    } else {
      var us := ts[1..];
      assert forall k :: 0 <= k < |us| ==> IsToken(us[k]) by {
        forall k | 0 <= k < |us| ensures IsToken(us[k]) { assert us[k] == ts[k + 1]; }
      }
      FieldsOfJoinCons(ts);
      FieldsOfJoin(us);
      HeadTail(ts);
    }
  }

  /** A single token is its only field. */
  lemma FieldsOfSingle(t: string)
    requires IsToken(t)
    ensures Fields(t) == [t]
  {
    assert t + [] == t;
    FieldsOfToken(t, []);
  }

  /** Splitting a token joined in front of more words gives the token, then the words' fields. */
  lemma FieldsOfJoinCons(ts: seq<string>)
    requires |ts| >= 2 && IsToken(ts[0])
    ensures Fields(Join(ts, ' ')) == [ts[0]] + Fields(Join(ts[1..], ' '))
  {
    FieldsAtSpace(ts[0], ' ', Join(ts[1..], ' '));
    FieldsOfSingle(ts[0]);
  }

  /** A non-empty list is its head followed by its tail. */
  lemma HeadTail<T>(xs: seq<T>)
    requires |xs| >= 1
    ensures [xs[0]] + xs[1..] == xs
  {
  }


  /**
   * `split(' ', 2)` agrees with `split(' ')`: its first part is the first
   * field, and splitting its second part gives the remaining fields.
   */
  lemma SplitTwoFields(s: string)
    ensures var parts, fs := SplitTwo(s), Fields(s);
      (fs == [] <==> parts == [] || parts == [""]) &&
      (fs != [] ==>
         (parts[0] == fs[0] &&
          (|parts| == 1 ==> fs == [parts[0]]) &&
          (|parts| == 2 ==> Fields(parts[1]) == fs[1..])))
  {
    var t := DropSpaces(s);
    if t != [] {
      var w := Word(t);
      var rest := t[|w|..];
      if rest != [] {
        FieldsAfterSpaces(rest);
      }
    }
  }

  // ------------------------------------------------------- split('.')

  /** Every piece of `s` between dots, empty pieces included: `|Pieces(s)|` is one more than the number of dots. */
  function Pieces(s: string, sep: char): (ps: seq<string>)
    ensures |ps| >= 1
    ensures forall k :: 0 <= k < |ps| ==> sep !in ps[k]
  {
    if s == [] then [[]]
    else
      var ps := Pieces(s[1..], sep);
      if s[0] == sep then [[]] + ps else [[s[0]] + ps[0]] + ps[1..]
  }

  /** Removes the empty strings at the end of a list, as Ruby's `split` does without a limit. */
  function DropTrailingEmpty(xs: seq<string>): (r: seq<string>)
    ensures |r| <= |xs| && r == xs[..|r|]
    ensures forall k :: |r| <= k < |xs| ==> xs[k] == []
    ensures r == [] || r[|r| - 1] != []
  {
    if xs == [] || xs[|xs| - 1] != [] then xs else DropTrailingEmpty(xs[..|xs| - 1])
  }

  /** `s.split('.')`: the text between dots, with the empty pieces at the end dropped. */
  function DotSplit(s: string): (r: seq<string>)
    ensures forall k :: 0 <= k < |r| ==> '.' !in r[k]
    ensures r == [] || r[|r| - 1] != []
    ensures r <= Pieces(s, '.')
    ensures forall k :: |r| <= k < |Pieces(s, '.')| ==> Pieces(s, '.')[k] == []
  {
    DropTrailingEmpty(Pieces(s, '.'))
  }

  /** The part of `s` before its first dot (all of `s` when it has none). */
  function UpToDot(s: string): (p: string)
    ensures |p| <= |s| && p == s[..|p|]
    ensures '.' !in p
    ensures |p| == |s| || s[|p|] == '.'
  {
    if s == [] || s[0] == '.' then [] else [s[0]] + UpToDot(s[1..])
  }

  /** Joining the pieces with the separator restores the string. */
  lemma {:induction false} JoinPieces(s: string, sep: char)
    ensures Join(Pieces(s, sep), sep) == s
  {
    if s != [] {
      var ps := Pieces(s[1..], sep);
      JoinPieces(s[1..], sep);
      if s[0] == sep {
        assert Pieces(s, sep)[1..] == ps;
        assert s == [sep] + s[1..];
      } else if |ps| == 1 {
        assert s == [s[0]] + ps[0];
      } else {
        var qs := Pieces(s, sep);
        assert qs[1..] == ps[1..];
        assert s == [s[0]] + (ps[0] + [sep] + Join(ps[1..], sep));
      }
    }
  }

  /** The pieces of the joined words are the words, when no word holds the separator. */
  lemma {:induction false} PiecesOfJoin(ws: seq<string>, sep: char)
    requires |ws| >= 1
    requires forall k :: 0 <= k < |ws| ==> sep !in ws[k]
    ensures Pieces(Join(ws, sep), sep) == ws
  {
    if |ws| == 1 {
      PiecesOfWord(ws[0], [], sep);
      assert ws[0] + [] == ws[0];
    } else {
      var j := Join(ws[1..], sep);
      PiecesOfJoin(ws[1..], sep);
      PiecesOfWord(ws[0], [sep] + j, sep);
      assert Join(ws, sep) == ws[0] + ([sep] + j);
      assert ([sep] + j)[1..] == j;
    }
  }

  lemma {:induction false} PiecesOfWord(w: string, rest: string, sep: char)
    requires sep !in w
    requires rest == [] || rest[0] == sep
    ensures var ps := Pieces(w + rest, sep);
      ps[0] == w && ps[1..] == (if rest == [] then [] else Pieces(rest[1..], sep))
  {
    if w == [] {
      assert w + rest == rest;
    } else {
      assert (w + rest)[1..] == w[1..] + rest;
      PiecesOfWord(w[1..], rest, sep);
      assert w == [w[0]] + w[1..];
    }
  }

  /** The first piece is the text before the first separator. */
  lemma {:induction false} FirstPiece(s: string)
    ensures Pieces(s, '.')[0] == UpToDot(s)
  {
    if s != [] && s[0] != '.' {
      FirstPiece(s[1..]);
    }
  }

  /** All pieces are empty exactly when the string is made only of dots. */
  lemma {:induction false} PiecesAllEmpty(s: string)
    ensures (forall k :: 0 <= k < |Pieces(s, '.')| ==> Pieces(s, '.')[k] == [])
        <==> (forall i :: 0 <= i < |s| ==> s[i] == '.')
  {
    if s != [] {
      PiecesAllEmpty(s[1..]);
      var ps := Pieces(s[1..], '.');
      if s[0] == '.' {
        var qs := Pieces(s, '.');
        assert qs == [[]] + ps;
        assert (forall k :: 0 <= k < |qs| ==> qs[k] == []) <==> (forall k :: 0 <= k < |ps| ==> ps[k] == []) by {
          assert forall k :: 1 <= k < |qs| ==> qs[k] == ps[k - 1];
          assert forall k :: 0 <= k < |ps| ==> ps[k] == qs[k + 1];
        }
        assert (forall i :: 0 <= i < |s| ==> s[i] == '.') <==> (forall i :: 0 <= i < |s[1..]| ==> s[1..][i] == '.') by {
          assert forall i :: 1 <= i < |s| ==> s[i] == s[1..][i - 1];
          assert forall i :: 0 <= i < |s[1..]| ==> s[1..][i] == s[i + 1];
        }
      } else {
        assert Pieces(s, '.')[0] != [];
      }
    }
  }

  /**
   * `s.split('.')` is empty exactly when `s` is made only of dots; otherwise
   * its first element is the text before the first dot.
   */
  lemma DotSplitHead(s: string)
    ensures DotSplit(s) == [] <==> forall i :: 0 <= i < |s| ==> s[i] == '.'
    ensures DotSplit(s) != [] ==> DotSplit(s)[0] == UpToDot(s)
  {
    var ps := Pieces(s, '.');
    PiecesAllEmpty(s);
    FirstPiece(s);
    if DotSplit(s) == [] {
      assert forall k :: 0 <= k < |ps| ==> ps[k] == [];
    } else {
      assert DotSplit(s)[0] == ps[0];
    }
  }
}
