/**
 * The JavaScript string operations the exporter relies on, on `seq<char>`:
 * `String.prototype.split` on a one-character separator, `startsWith`,
 * `replace(/c/g, "")` and `trim`.
 */
module Text {

  /** The characters JavaScript's `trim` removes: the ECMAScript WhiteSpace
      and LineTerminator productions (tab, line feed, vertical tab, form feed,
      carriage return, space, no-break space, the byte order mark, the line
      and paragraph separators) and the space separators of category Zs as of
      Unicode 15. */
  predicate IsSpace(c: char)
  {
    if c <= ' ' then c == ' ' || '\t' <= c <= '\r'
    else if c < '\U{A0}' then false
    else (c == '\U{A0}' || c == '\U{1680}' || '\U{2000}' <= c <= '\U{200A}'
          || c == '\U{2028}' || c == '\U{2029}' || c == '\U{202F}' || c == '\U{205F}'
          || c == '\U{3000}' || c == '\U{FEFF}')
  }

  /** Neither end of `s` is a whitespace character. */
  predicate IsTrimmed(s: string)
  {
    s == [] || (!IsSpace(s[0]) && !IsSpace(s[|s| - 1]))
  }

  predicate StartsWith(s: string, prefix: string)
  {
    |prefix| <= |s| && s[..|prefix|] == prefix
  }

  /** Number of occurrences of `c` in `s`. */
  function Count(s: string, c: char): nat
  {
    if s == [] then 0 else (if s[0] == c then 1 else 0) + Count(s[1..], c)
  }

  /** `parts` glued back together with `sep` between neighbours. */
  function Join(parts: seq<string>, sep: char): string
    requires |parts| >= 1
  {
    if |parts| == 1 then parts[0] else parts[0] + [sep] + Join(parts[1..], sep)
  }

  /** `s.split(sep)`: the maximal pieces of `s` between occurrences of `sep`.
      The empty string gives one empty piece. */
  function Split(s: string, sep: char): (parts: seq<string>)
    ensures |parts| == Count(s, sep) + 1
    ensures forall k :: 0 <= k < |parts| ==> sep !in parts[k]
    ensures Join(parts, sep) == s
  {
    if s == [] then [""]
    else
      var rest := Split(s[1..], sep);
      if s[0] == sep then [""] + rest
      else
        assert [s[0]] + rest[0] + Join(rest, sep)[|rest[0]|..] == s by {
          if |rest| > 1 {
            assert Join(rest, sep) == rest[0] + ([sep] + Join(rest[1..], sep));
            assert Join(rest[1..], sep) == Join(rest, sep)[|rest[0]| + 1..];
          }
          assert s == [s[0]] + s[1..];
        }
        [[s[0]] + rest[0]] + rest[1..]
  }

  /** Splitting what `Join` produced gives back the pieces, when no piece
      holds the separator: the other direction of the round trip. */
  lemma {:induction false} SplitJoin(parts: seq<string>, sep: char)
    requires |parts| >= 1
    requires forall k :: 0 <= k < |parts| ==> sep !in parts[k]
    ensures Split(Join(parts, sep), sep) == parts
  {
    if |parts| == 1 {
      SplitPiece(parts[0], sep);
    } else {
      SplitJoin(parts[1..], sep);
      SplitBefore(parts[0], Join(parts[1..], sep), sep);
      assert [parts[0]] + parts[1..] == parts;
    }
  }

  /** A string without the separator is a single piece. */
  lemma {:induction false} SplitPiece(s: string, sep: char)
    requires sep !in s
    ensures Split(s, sep) == [s]
  {
    if s != [] {
      SplitPiece(s[1..], sep);
    }
  }

  /** A separator-free head followed by a separator starts a new piece. */
  lemma {:induction false} SplitBefore(head: string, tail: string, sep: char)
    requires sep !in head
    ensures Split(head + [sep] + tail, sep) == [head] + Split(tail, sep)
  {
    if head == [] {
      assert head + [sep] + tail == [sep] + tail;
      assert ([sep] + tail)[1..] == tail;
    } else {
      SplitBefore(head[1..], tail, sep);
      assert (head + [sep] + tail)[1..] == head[1..] + [sep] + tail;
      assert [head[0]] + head[1..] == head;
    }
  }

  /** `s.replace(/c/g, "")`: `s` with every occurrence of `c` deleted. */
  function RemoveAll(s: string, c: char): (r: string)
    ensures c !in r
    ensures |r| + Count(s, c) == |s|
    ensures forall x :: x in r <==> x in s && x != c
  {
    if s == [] then []
    else
      var rest := RemoveAll(s[1..], c);
      assert forall x :: x in s <==> x == s[0] || x in s[1..];
      if s[0] == c then rest else [s[0]] + rest
  }

  /** Removing a character that does not occur changes nothing. */
  lemma {:induction false} RemoveAllAbsent(s: string, c: char)
    requires c !in s
    ensures RemoveAll(s, c) == s
  {
    if s != [] {
      RemoveAllAbsent(s[1..], c);
      assert [s[0]] + s[1..] == s;
    }
  }

  /** A one-character string loses its character exactly when it is `c`. */
  lemma RemoveAllOne(x: char, c: char)
    ensures RemoveAll([x], c) == if x == c then [] else [x]
  {
    assert [x][1..] == [];
  }

  /** Removing works piece by piece: it keeps the order and the multiplicity
      of every other character. */
  lemma {:induction false} RemoveAllAppend(a: string, b: string, c: char)
    ensures RemoveAll(a + b, c) == RemoveAll(a, c) + RemoveAll(b, c)
  {
    if a == [] {
      assert a + b == b;
    } else {
      var head := if a[0] == c then [] else [a[0]];
      assert (a + b)[0] == a[0] && (a + b)[1..] == a[1..] + b;
      assert RemoveAll(a + b, c) == head + RemoveAll(a[1..] + b, c);
      assert RemoveAll(a, c) == head + RemoveAll(a[1..], c);
      RemoveAllAppend(a[1..], b, c);
    }
  }

  /** The end of the run of whitespace that starts at `i`. */
  function SpacesFrom(s: string, i: nat): (n: nat)
    requires i <= |s|
    ensures i <= n <= |s|
    ensures forall k :: i <= k < n ==> IsSpace(s[k])
    ensures n == |s| || !IsSpace(s[n])
    decreases |s| - i
  {
    if i == |s| || !IsSpace(s[i]) then i else SpacesFrom(s, i + 1)
  }

  /** The start of the run of whitespace that ends just before `j`. */
  function SpacesBefore(s: string, j: nat): (m: nat)
    requires j <= |s|
    ensures m <= j
    ensures forall k :: m <= k < j ==> IsSpace(s[k])
    ensures m == 0 || !IsSpace(s[m - 1])
  {
    if j == 0 || !IsSpace(s[j - 1]) then j else SpacesBefore(s, j - 1)
  }

  /** `trim`: the middle of `s` between its leading and its trailing
      whitespace; empty when `s` is all whitespace. */
  function Trim(s: string): (r: string)
    ensures IsTrimmed(r)
    ensures |r| <= |s|
    ensures forall x :: x in r ==> x in s
  {
    var a := SpacesFrom(s, 0);
    var b := SpacesBefore(s, |s|);
    if b <= a then "" else s[a..b]
  }

  /** The trimmed text is the piece of `s` that starts after its leading
      whitespace, and everything before and after that piece is
      whitespace. */
  lemma TrimIsInfix(s: string)
    ensures SpacesFrom(s, 0) + |Trim(s)| <= |s|
    ensures Trim(s) == s[SpacesFrom(s, 0)..SpacesFrom(s, 0) + |Trim(s)|]
    ensures forall i :: 0 <= i < SpacesFrom(s, 0) ==> IsSpace(s[i])
    ensures forall i :: SpacesFrom(s, 0) + |Trim(s)| <= i < |s| ==> IsSpace(s[i])
  {
    var a := SpacesFrom(s, 0);
    var b := SpacesBefore(s, |s|);
    if b <= a {
      assert Trim(s) == "";
      assert a == |s|;
    }
  }

  /** A string is left alone by `trim` exactly when its ends are not
      whitespace. */
  lemma TrimFixpoint(s: string)
    ensures Trim(s) == s <==> IsTrimmed(s)
  {
    if IsTrimmed(s) && s != [] {
      assert SpacesFrom(s, 0) == 0;
      assert SpacesBefore(s, |s|) == |s|;
      assert s[0..|s|] == s;
    }
  }

  /** `trim` is idempotent. */
  lemma TrimIdempotent(s: string)
    ensures Trim(Trim(s)) == Trim(s)
  {
    TrimFixpoint(Trim(s));
  }

  /** A trailing carriage return, the remnant of a CRLF line ending after a
      split on `"\n"`, makes no difference to `trim`. */
  lemma TrimDropsCarriageReturn(s: string)
    ensures Trim(s + "\r") == Trim(s)
  {
    var t := s + "\r";
    assert t[|s|] == '\r';
    assert SpacesBefore(t, |t|) == SpacesBefore(t, |s|);
    SpacesBeforeExtend(s, '\r', |s|);
    SpacesFromExtend(s, '\r', 0);
    var a := SpacesFrom(s, 0);
    var b := SpacesBefore(s, |s|);
    if a < |s| && a < b {
      assert t[a..b] == s[a..b];
    }
  }

  /** Appending a character leaves the backward scan from inside `s` alone. */
  lemma {:induction false} SpacesBeforeExtend(s: string, c: char, j: nat)
    requires j <= |s|
    ensures SpacesBefore(s + [c], j) == SpacesBefore(s, j)
  {
    if j > 0 {
      assert (s + [c])[j - 1] == s[j - 1];
      if IsSpace(s[j - 1]) {
        SpacesBeforeExtend(s, c, j - 1);
      }
    }
  }

  /** Appending a character leaves a forward scan that stops inside `s`
      alone, and extends one that reaches the end when the character is
      whitespace. */
  lemma {:induction false} SpacesFromExtend(s: string, c: char, i: nat)
    requires i <= |s|
    ensures SpacesFrom(s, i) < |s| ==> SpacesFrom(s + [c], i) == SpacesFrom(s, i)
    ensures SpacesFrom(s, i) == |s| && IsSpace(c) ==> SpacesFrom(s + [c], i) == |s| + 1
    decreases |s| - i
  {
    var t := s + [c];
    if i < |s| {
      assert t[i] == s[i];
      if IsSpace(s[i]) {
        SpacesFromExtend(s, c, i + 1);
      }
    } else {
      assert t[|s|] == c;
      if IsSpace(c) {
        assert SpacesFrom(t, |s|) == SpacesFrom(t, |s| + 1);
      }
    }
  }
}
