/**
 * Models of the java.lang.String operations the plugin relies on:
 * `split` on a one-character separator, `trim`, `String.valueOf(int)`
 * for non-negative values, and a separator join (the argument loop of
 * the generated method header builds one).
 */
module Strings {

  /** Concatenation of sequences is associative. */
  lemma AppendAssoc<T>(a: seq<T>, b: seq<T>, c: seq<T>)
    ensures a + b + c == a + (b + c)
  {
  }

  /** The pieces of `s` between occurrences of `sep`, empty pieces included. */
  function Pieces(s: string, sep: char): (r: seq<string>)
    ensures |r| >= 1
  {
    if s == [] then [[]]
    else
      var rest := Pieces(s[1..], sep);
      if s[0] == sep then [[]] + rest
      else [[s[0]] + rest[0]] + rest[1..]
  }

  /** `parts` separated by `sep`; the empty list joins to the empty string. */
  function Join(parts: seq<string>, sep: char): string
  {
    if |parts| == 0 then []
    else if |parts| == 1 then parts[0]
    else parts[0] + [sep] + Join(parts[1..], sep)
  }

  /** Joining one more part adds a separator and the part at the end. */
  lemma {:induction false} JoinSnoc(parts: seq<string>, x: string, sep: char)
    requires |parts| >= 1
    ensures Join(parts + [x], sep) == Join(parts, sep) + [sep] + x
  {
    if |parts| == 1 {
      assert parts + [x] == [parts[0], x];
      assert [x][1..] == [];
    } else {
      assert (parts + [x])[1..] == parts[1..] + [x];
      JoinSnoc(parts[1..], x, sep);
    }
  }

  /** Cutting a word free of `sep` off the front leaves the pieces of the rest. */
  lemma {:induction false} PiecesOfWord(w: string, t: string, sep: char)
    requires sep !in w
    ensures Pieces(w + t, sep) == [w + Pieces(t, sep)[0]] + Pieces(t, sep)[1..]
  {
    if w == [] {
      var pt := Pieces(t, sep);
      assert w + t == t;
      assert w + pt[0] == pt[0];
      assert pt == [pt[0]] + pt[1..];
    } else {
      assert (w + t)[0] == w[0];
      assert (w + t)[1..] == w[1..] + t;
      PiecesOfWord(w[1..], t, sep);
      assert [w[0]] + (w[1..] + Pieces(t, sep)[0]) == w + Pieces(t, sep)[0];
    }
  }

  /** Splitting a join of separator-free parts gives the parts back. */
  lemma {:induction false} PiecesOfJoin(parts: seq<string>, sep: char)
    requires |parts| >= 1
    requires forall k :: 0 <= k < |parts| ==> sep !in parts[k]
    ensures Pieces(Join(parts, sep), sep) == parts
  {
    if |parts| == 1 {
      PiecesOfWord(parts[0], [], sep);
      assert parts[0] + [] == parts[0];
    } else {
      var rest := Join(parts[1..], sep);
      PiecesOfJoin(parts[1..], sep);
      assert Pieces([sep] + rest, sep) == [[]] + parts[1..];
      assert parts[0] + [sep] + rest == parts[0] + ([sep] + rest);
      PiecesOfWord(parts[0], [sep] + rest, sep);
      assert parts[0] + [] == parts[0];
      assert parts == [parts[0]] + parts[1..];
    }
  }

  /** Joining the pieces of a string gives the string back. */
  lemma {:induction false} JoinOfPieces(s: string, sep: char)
    ensures Join(Pieces(s, sep), sep) == s
  {
    if s != [] {
      var rest := Pieces(s[1..], sep);
      JoinOfPieces(s[1..], sep);
      if s[0] == sep {
        assert ([[]] + rest)[1..] == rest;
      } else if |rest| == 1 {
        assert [s[0]] + rest[0] == [s[0]] + s[1..];
      } else {
        var ps := [[s[0]] + rest[0]] + rest[1..];
        assert ps[1..] == rest[1..];
        assert Join(rest, sep) == rest[0] + [sep] + Join(rest[1..], sep);
      }
    }
  }

  /** `ps` without its trailing empty strings. */
  function DropTrailingEmpty(ps: seq<string>): (r: seq<string>)
    ensures |r| <= |ps| && r == ps[..|r|]
    ensures r == [] || r[|r| - 1] != []
    ensures forall k :: |r| <= k < |ps| ==> ps[k] == []
  {
    if |ps| > 0 && ps[|ps| - 1] == [] then DropTrailingEmpty(ps[..|ps| - 1]) else ps
  }

  /** No piece contains the separator. */
  lemma {:induction false} PiecesFreeOfSep(s: string, sep: char)
    ensures forall k :: 0 <= k < |Pieces(s, sep)| ==> sep !in Pieces(s, sep)[k]
  {
    if s != [] {
      PiecesFreeOfSep(s[1..], sep);
    }
  }

  /**
   * Java's `s.split(String.valueOf(sep))` for a separator that is not a
   * regular-expression metacharacter: the input itself when the separator
   * does not occur, otherwise the pieces with trailing empty ones removed.
   */
  function JavaSplit(s: string, sep: char): seq<string>
  {
    if sep !in s then [s] else DropTrailingEmpty(Pieces(s, sep))
  }

  /**
   * The split of a non-empty string is its pieces up to the last non-empty
   * one; the empty string splits into itself; no part holds the separator.
   */
  lemma JavaSplitSpec(s: string, sep: char)
    ensures var r := JavaSplit(s, sep);
      && (s == [] ==> r == [[]])
      && (s != [] ==> |r| <= |Pieces(s, sep)| && r == Pieces(s, sep)[..|r|])
      && (s != [] ==> forall k :: |r| <= k < |Pieces(s, sep)| ==> Pieces(s, sep)[k] == [])
      && (s != [] ==> r == [] || r[|r| - 1] != [])
      && (forall k :: 0 <= k < |r| ==> sep !in r[k])
  {
    PiecesFreeOfSep(s, sep);
    if sep !in s {
      PiecesOfWord(s, [], sep);
      assert s + [] == s;
    }
  }

  /** Characters `String.trim` removes: code points up to and including space. */
  predicate IsTrimmed(c: char) { c <= ' ' }

  function TrimStart(s: string): string
  {
    if s != [] && IsTrimmed(s[0]) then TrimStart(s[1..]) else s
  }

  function TrimEnd(s: string): string
  {
    if s != [] && IsTrimmed(s[|s| - 1]) then TrimEnd(s[..|s| - 1]) else s
  }

  /**
   * Java's `String.trim`: `s` less its leading and trailing control and space
   * characters, dropped one at a time from either end.
   */
  function Trim(s: string): string
  {
    if s != [] && IsTrimmed(s[0]) then Trim(s[1..])
    else if s != [] && IsTrimmed(s[|s| - 1]) then Trim(s[..|s| - 1])
    else s
  }

  /** `TrimStart` drops a prefix of trimmed characters and stops at the first other one. */
  lemma {:induction false} TrimStartSpec(s: string)
    ensures var r := TrimStart(s);
      && |r| <= |s| && r == s[|s| - |r|..]
      && (r == [] || !IsTrimmed(r[0]))
      && (forall k :: 0 <= k < |s| - |r| ==> IsTrimmed(s[k]))
  {
    if s != [] && IsTrimmed(s[0]) {
      TrimStartSpec(s[1..]);
      var r := TrimStart(s);
      forall k | 0 <= k < |s| - |r| ensures IsTrimmed(s[k]) {
        if k > 0 { assert s[k] == s[1..][k - 1]; }
      }
    }
  }

  /** `TrimEnd` drops a suffix of trimmed characters and stops at the last other one. */
  lemma {:induction false} TrimEndSpec(s: string)
    ensures var r := TrimEnd(s);
      && |r| <= |s| && r == s[..|r|]
      && (r == [] || !IsTrimmed(r[|r| - 1]))
      && (forall k :: |r| <= k < |s| ==> IsTrimmed(s[k]))
  {
    if s != [] && IsTrimmed(s[|s| - 1]) {
      TrimEndSpec(s[..|s| - 1]);
      var r := TrimEnd(s);
      forall k | |r| <= k < |s| ensures IsTrimmed(s[k]) {
        if k < |s| - 1 { assert s[k] == s[..|s| - 1][k]; }
      }
    }
  }

  /** Trimming is stripping the front, then the back. */
  lemma {:induction false} TrimIsBothEnds(s: string)
    ensures Trim(s) == TrimEnd(TrimStart(s))
  {
    if s != [] && IsTrimmed(s[0]) {
      TrimIsBothEnds(s[1..]);
    } else if s != [] && IsTrimmed(s[|s| - 1]) {
      var t := s[..|s| - 1];
      TrimIsBothEnds(t);
      if t != [] {
        assert t[0] == s[0];
      }
    }
  }

  /**
   * `Trim` gives a part of `s` that neither starts nor ends with a trimmed
   * character, everything it drops is trimmed, and a string without such
   * characters is left unchanged.
   */
  lemma TrimSpec(s: string)
    ensures var r := Trim(s);
      && |r| <= |s|
      && (r == [] || (!IsTrimmed(r[0]) && !IsTrimmed(r[|r| - 1])))
      && (exists i, j :: 0 <= i <= j <= |s| && r == s[i..j] &&
            forall k :: (0 <= k < i || j <= k < |s|) ==> IsTrimmed(s[k]))
      && ((forall k :: 0 <= k < |s| ==> !IsTrimmed(s[k])) ==> r == s)
  {
    TrimIsBothEnds(s);
    var t := TrimStart(s);
    TrimStartSpec(s);
    TrimEndSpec(t);
    var r := TrimEnd(t);
    if r != [] {
      assert r[0] == t[0];
    }
    var i := |s| - |t|;
    var j := i + |r|;
    assert r == s[i..j];
    forall k | j <= k < |s| ensures IsTrimmed(s[k]) {
      assert s[k] == t[k - i];
    }
    if forall k :: 0 <= k < |s| ==> !IsTrimmed(s[k]) {
      assert TrimStart(s) == s;
      assert TrimEnd(s) == s;
    }
  }

  function DigitChar(d: nat): (c: char)
    requires d < 10
    ensures '0' <= c <= '9'
  {
    ('0' as int + d) as char
  }

  /** `String.valueOf(n)` for a non-negative `n`. */
  function NatToDecimal(n: nat): string
  {
    if n < 10 then [DigitChar(n)] else NatToDecimal(n / 10) + [DigitChar(n % 10)]
  }

  predicate IsDigits(s: string)
  {
    forall k :: 0 <= k < |s| ==> '0' <= s[k] <= '9'
  }

  /** The value of a string of decimal digits. */
  function DecimalValue(s: string): nat
    requires IsDigits(s)
  {
    if s == [] then 0 else DecimalValue(s[..|s| - 1]) * 10 + (s[|s| - 1] as int - '0' as int)
  }

  /** `NatToDecimal` writes a non-empty digit string that reads back as `n`. */
  lemma {:induction false} DecimalRoundTrip(n: nat)
    ensures |NatToDecimal(n)| >= 1 && IsDigits(NatToDecimal(n))
    ensures DecimalValue(NatToDecimal(n)) == n
  {
    if n >= 10 {
      DecimalRoundTrip(n / 10);
      var s := NatToDecimal(n);
      assert s[..|s| - 1] == NatToDecimal(n / 10);
    }
  }

  /** The characters of `s` after its last `c` (all of `s` when `c` does not occur). */
  function AfterLast(s: string, c: char): string
  {
    if s == [] then [] else if s[|s| - 1] == c then [] else AfterLast(s[..|s| - 1], c) + [s[|s| - 1]]
  }

  lemma {:induction false} AfterLastOfAppend(p: string, c: char, w: string)
    requires c !in w
    ensures AfterLast(p + [c] + w, c) == w
  {
    if w != [] {
      var s := p + [c] + w;
      assert s[..|s| - 1] == p + [c] + w[..|w| - 1];
      AfterLastOfAppend(p, c, w[..|w| - 1]);
      assert w == w[..|w| - 1] + [w[|w| - 1]];
    }
  }
}
