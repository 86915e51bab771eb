/**
 * The Python `str` operations the blacklister relies on, stated over
 * `seq<char>`: whitespace classification, `split` with and without a
 * separator, `join` and `strip`.
 */
module Text {

  /** `c.isspace()`: the code points Python classifies as whitespace. */
  predicate IsSpace(c: char) {
    var n := c as int;
    (9 <= n <= 13) || (28 <= n <= 32) || n == 0x85 || n == 0xA0 || n == 0x1680
    || (0x2000 <= n <= 0x200A) || n == 0x2028 || n == 0x2029 || n == 0x202F
    || n == 0x205F || n == 0x3000
  }

  predicate AllSpace(s: string) {
    forall i :: 0 <= i < |s| ==> IsSpace(s[i])
  }

  /**
   * `s.split(d)` with an explicit separator: the pieces between the
   * occurrences of `d`, empty pieces included, so there is always one more
   * piece than there are separators.
   */
  function Split(s: string, d: char): (parts: seq<string>)
    ensures |parts| >= 1
    decreases |s|
  {
    if s == [] then [[]]
    else
      var rest := Split(s[1..], d);
      if s[0] == d then [[]] + rest else [[s[0]] + rest[0]] + rest[1..]
  }

  /** No piece of a split holds the separator. */
  lemma {:induction false} SplitPieces(s: string, d: char)
    ensures forall i :: 0 <= i < |Split(s, d)| ==> d !in Split(s, d)[i]
    decreases |s|
  {
    if s != [] {
      SplitPieces(s[1..], d);
      var rest := Split(s[1..], d);
      var parts := Split(s, d);
      forall i | 0 <= i < |parts| ensures d !in parts[i] {
        if s[0] == d {
          if i > 0 {
            assert parts[i] == rest[i - 1];
          }
        } else if i == 0 {
          assert parts[0] == [s[0]] + rest[0];
          assert d !in rest[0];
        } else {
          assert parts[i] == rest[i];
        }
      }
    }
  }

  /** The first piece of a split is the text up to the first separator. */
  lemma {:induction false} SplitFirst(s: string, d: char)
    ensures var p := Split(s, d)[0];
      |p| <= |s| && p == s[..|p|] && (|p| == |s| || s[|p|] == d)
    decreases |s|
  {
    if s != [] {
      SplitFirst(s[1..], d);
      var r := Split(s[1..], d)[0];
      if s[0] != d {
        assert Split(s, d)[0] == [s[0]] + r;
        assert s[..1 + |r|] == [s[0]] + s[1..][..|r|];
      }
    }
  }

  /**
   * No piece holds the separator, and the first piece is the text up to
   * the first separator (or all of it).
   */
  lemma SplitSpec(s: string, d: char)
    ensures var parts := Split(s, d);
      forall i :: 0 <= i < |parts| ==> d !in parts[i]
    ensures var parts := Split(s, d);
      |parts[0]| <= |s| && parts[0] == s[..|parts[0]|]
    ensures var parts := Split(s, d);
      |parts[0]| == |s| || s[|parts[0]|] == d
  {
    SplitPieces(s, d);
    SplitFirst(s, d);
  }

  /** `d.join(parts)`. */
  function Join(parts: seq<string>, d: char): string
  {
    if parts == [] then []
    else if |parts| == 1 then parts[0]
    else parts[0] + [d] + Join(parts[1..], d)
  }

  /** Joining the pieces of a split gives back the string that was split. */
  lemma {:induction false} JoinSplit(s: string, d: char)
    ensures Join(Split(s, d), d) == s
    decreases |s|
  {
    if s != [] {
      var rest := Split(s[1..], d);
      JoinSplit(s[1..], d);
      if s[0] == d {
        assert Split(s, d) == [[]] + rest;
        assert ([[]] + rest)[1..] == rest;
        assert s == [d] + s[1..];
      } else {
        assert Split(s, d) == [[s[0]] + rest[0]] + rest[1..];
        if |rest| == 1 {
          assert s == [s[0]] + s[1..];
        } else {
          var parts := [[s[0]] + rest[0]] + rest[1..];
          assert parts[1..] == rest[1..];
          assert Join(rest, d) == rest[0] + [d] + Join(rest[1..], d);
          assert s == [s[0]] + s[1..];
        }
      }
    }
  }

  /** A leading piece free of the separator stays one piece. */
  lemma {:induction false} SplitPrefix(p: string, rest: string, d: char)
    requires d !in p
    ensures Split(p + rest, d) == [p + Split(rest, d)[0]] + Split(rest, d)[1..]
    decreases |p|
  {
    if p != [] {
      assert (p + rest)[1..] == p[1..] + rest;
      SplitPrefix(p[1..], rest, d);
      assert [p[0]] + (p[1..] + Split(rest, d)[0]) == p + Split(rest, d)[0];
    } else {
      var parts := Split(rest, d);
      assert p + rest == rest;
      assert p + parts[0] == parts[0];
      assert parts == [parts[0]] + parts[1..];
    }
  }

  /** Splitting a join of separator-free pieces gives back those pieces. */
  lemma {:induction false} SplitJoin(parts: seq<string>, d: char)
    requires |parts| >= 1
    requires forall i :: 0 <= i < |parts| ==> d !in parts[i]
    ensures Split(Join(parts, d), d) == parts
    decreases |parts|
  {
    if |parts| == 1 {
      SplitPrefix(parts[0], [], d);
      assert parts[0] + [] == parts[0];
    } else {
      var tail := Join(parts[1..], d);
      SplitJoin(parts[1..], d);
      assert Join(parts, d) == parts[0] + ([d] + tail);
      SplitPrefix(parts[0], [d] + tail, d);
      assert ([d] + tail)[1..] == tail;
      assert Split([d] + tail, d) == [[]] + parts[1..];
      assert parts[0] + [] == parts[0];
    }
  }

  /** A piece free of the separator is the whole split. */
  lemma SplitWhole(p: string, d: char)
    requires d !in p
    ensures Split(p, d) == [p]
  {
    SplitPrefix(p, [], d);
    assert p + [] == p;
  }

  /** A separator-free piece followed by the separator splits off first. */
  lemma SplitAtSeparator(s: string, p: string, rest: string, d: char, tail: seq<string>)
    requires s == p + [d] + rest && d !in p && Split(rest, d) == tail
    ensures Split(s, d) == [p] + tail
  {
    SplitPrefix(p, [d] + rest, d);
    assert p + [d] + rest == p + ([d] + rest);
    assert ([d] + rest)[1..] == rest;
    assert p + [] == p;
  }

  /** Two separator-free pieces around one separator. */
  lemma SplitTwo(s: string, a: string, b: string, d: char)
    requires s == a + [d] + b && d !in a && d !in b
    ensures Split(s, d) == [a, b]
  {
    SplitWhole(b, d);
    SplitAtSeparator(s, a, b, d, [b]);
  }

  /** Four pieces joined: each pair separated by one `d`. */
  lemma JoinFour(a: string, b: string, c: string, e: string, d: char)
    ensures Join([a, b, c, e], d) == a + [d] + b + [d] + c + [d] + e
  {
    assert [a, b, c, e][1..] == [b, c, e] && [b, c, e][1..] == [c, e] && [c, e][1..] == [e];
    var ce := c + [d] + e;
    var bce := b + [d] + ce;
    assert Join([c, e], d) == ce;
    assert Join([b, c, e], d) == bce;
    var ab := a + [d] + b + [d];
    assert a + [d] + bce == ab + ce;
    assert ab + ce == ab + c + [d] + e;
  }

  /** Four separator-free pieces between three separators. */
  lemma SplitFour(s: string, a: string, b: string, c: string, e: string, d: char)
    requires s == a + [d] + b + [d] + c + [d] + e
    requires d !in a && d !in b && d !in c && d !in e
    ensures Split(s, d) == [a, b, c, e]
  {
    var ce := c + [d] + e;
    var bce := b + [d] + ce;
    SplitTwo(ce, c, e, d);
    SplitAtSeparator(bce, b, ce, d, [c, e]);
    assert s == a + [d] + bce;
    SplitAtSeparator(s, a, bce, d, [b, c, e]);
  }

  /** Five separator-free pieces between four separators. */
  lemma SplitFive(s: string, a: string, b: string, c: string, e: string, f: string, d: char)
    requires s == a + [d] + b + [d] + c + [d] + e + [d] + f
    requires d !in a && d !in b && d !in c && d !in e && d !in f
    ensures Split(s, d) == [a, b, c, e, f]
  {
    var rest := b + [d] + c + [d] + e + [d] + f;
    SplitFour(rest, b, c, e, f, d);
    assert s == a + [d] + rest;
    SplitAtSeparator(s, a, rest, d, [b, c, e, f]);
  }

  /** `s.lstrip()`: drops the leading whitespace. */
  function LStrip(s: string): (r: string)
    ensures |r| <= |s| && r == s[|s| - |r|..]
    ensures forall i :: 0 <= i < |s| - |r| ==> IsSpace(s[i])
    ensures r == [] || !IsSpace(r[0])
    decreases |s|
  {
    if s != [] && IsSpace(s[0]) then LStrip(s[1..]) else s
  }

  /** `s.rstrip()`: drops the trailing whitespace. */
  function RStrip(s: string): (r: string)
    ensures |r| <= |s| && r == s[..|r|]
    ensures forall i :: |r| <= i < |s| ==> IsSpace(s[i])
    ensures r == [] || !IsSpace(r[|r| - 1])
    decreases |s|
  {
    if s != [] && IsSpace(s[|s| - 1]) then RStrip(s[..|s| - 1]) else s
  }

  /** `s.strip()`. */
  function Strip(s: string): string {
    RStrip(LStrip(s))
  }

  /**
   * What `strip` keeps is a contiguous piece of its input surrounded by
   * whitespace only, with no whitespace at either end; it is empty exactly
   * when the input is all whitespace.
   */
  lemma StripSpec(s: string)
    ensures var r := Strip(s);
      exists i :: 0 <= i <= |s| - |r| && s[i..i + |r|] == r
        && AllSpace(s[..i]) && AllSpace(s[i + |r|..])
    ensures var r := Strip(s); r == [] || (!IsSpace(r[0]) && !IsSpace(r[|r| - 1]))
    ensures Strip(s) == [] <==> AllSpace(s)
  {
    StripWithin(s);
    StripEmpty(s);
    var l := LStrip(s);
    var r := RStrip(l);
    if r != [] {
      assert r[0] == l[0];
    }
  }

  lemma StripWithin(s: string)
    ensures var r := Strip(s);
      exists i :: 0 <= i <= |s| - |r| && s[i..i + |r|] == r
        && AllSpace(s[..i]) && AllSpace(s[i + |r|..])
  {
    var l := LStrip(s);
    var r := RStrip(l);
    var i := |s| - |l|;
    LStripHead(s);
    RStripTail(l);
    assert l == s[i..];
    assert s[i..i + |r|] == r by {
      assert s[i..i + |r|] == s[i..][..|r|];
    }
    SpaceAfter(s, l, i, |r|);
    Within(s, r, i);
  }

  /** `i` witnesses that `r` sits in `s` between two runs of whitespace. */
  lemma Within(s: string, r: string, i: nat)
    requires i <= |s| - |r| && s[i..i + |r|] == r
    requires AllSpace(s[..i]) && AllSpace(s[i + |r|..])
    ensures exists j ::
      (0 <= j <= |s| - |r| && s[j..j + |r|] == r && AllSpace(s[..j]) && AllSpace(s[j + |r|..]))
  {
  }

  /** Whitespace after position `n` of a suffix is whitespace of the whole. */
  lemma SpaceAfter(s: string, l: string, i: nat, n: nat)
    requires i <= |s| && l == s[i..] && n <= |l| && AllSpace(l[n..])
    ensures AllSpace(s[i + n..])
  {
    var tail := s[i + n..];
    forall k | 0 <= k < |tail| ensures IsSpace(tail[k]) {
      assert tail[k] == l[n..][k];
    }
  }

  /** What `lstrip` drops is whitespace. */
  lemma LStripHead(s: string)
    ensures AllSpace(s[..|s| - |LStrip(s)|])
  {
    var head := s[..|s| - |LStrip(s)|];
    forall k | 0 <= k < |head| ensures IsSpace(head[k]) {
      assert head[k] == s[k];
    }
  }

  /** What `rstrip` drops is whitespace. */
  lemma RStripTail(l: string)
    ensures AllSpace(l[|RStrip(l)|..])
  {
    var n := |RStrip(l)|;
    var tail := l[n..];
    forall k | 0 <= k < |tail| ensures IsSpace(tail[k]) {
      assert tail[k] == l[n + k];
    }
  }

  lemma StripEmpty(s: string)
    ensures Strip(s) == [] <==> AllSpace(s)
  {
  }

  /** Length of the leading run of non-whitespace characters. */
  function WordLength(s: string): (n: nat)
    ensures n <= |s|
    ensures forall i :: 0 <= i < n ==> !IsSpace(s[i])
    ensures n == |s| || IsSpace(s[n])
    decreases |s|
  {
    if s == [] || IsSpace(s[0]) then 0 else 1 + WordLength(s[1..])
  }

  /**
   * `s.split()` with no separator: the maximal runs of non-whitespace
   * characters, in order; there are none exactly when `s` is all whitespace.
   */
  function Fields(s: string): (fs: seq<string>)
    ensures fs == [] <==> AllSpace(s)
    ensures fs != [] ==> fs[0] == LStrip(s)[..WordLength(LStrip(s))]
    decreases |s|
  {
    var t := LStrip(s);
    if t == [] then
      assert s[..|s|] == s;
      []
    else
      var n := WordLength(t);
      assert s[|s| - |t|] == t[0];
      [t[..n]] + Fields(t[n..])
  }
}
