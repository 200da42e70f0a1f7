/**
 * The two Ruby `String` methods the listing decoder relies on:
 * `strip` (drop leading and trailing whitespace) and `split` with a
 * literal string pattern and no limit.
 */
module RubyText {

  /** Ruby's whitespace for `strip`: NUL, tab, line feed, vertical tab,
      form feed, carriage return and space. */
  predicate IsSpace(c: char) {
    c == '\0' || c == '\t' || c == '\n' || c == '\U{0B}' || c == '\U{0C}' || c == '\r' || c == ' '
  }

  predicate AllSpace(s: string) {
    forall i :: 0 <= i < |s| ==> IsSpace(s[i])
  }

  /** Number of whitespace characters at the front of `s`. */
  function LeadingSpaces(s: string): (n: nat)
    ensures n <= |s| && AllSpace(s[..n])
    ensures n < |s| ==> !IsSpace(s[n])
  {
    if s == [] || !IsSpace(s[0]) then 0 else 1 + LeadingSpaces(s[1..])
  }

  /** Number of whitespace characters at the back of `s`. */
  function TrailingSpaces(s: string): (n: nat)
    ensures n <= |s| && AllSpace(s[|s| - n..])
    ensures n < |s| ==> !IsSpace(s[|s| - n - 1])
  {
    if s == [] || !IsSpace(s[|s| - 1]) then 0 else 1 + TrailingSpaces(s[..|s| - 1])
  }

  /** `String#strip`. */
  function Strip(s: string): (r: string)
    ensures |r| <= |s|
    ensures r != [] ==> !IsSpace(r[0]) && !IsSpace(r[|r| - 1])
    ensures r == [] <==> AllSpace(s)
  {
    var n := LeadingSpaces(s);
    var t := s[n..];
    assert s == s[..n] + t;
    t[..|t| - TrailingSpaces(t)]
  }

  /** The leading-whitespace count is the length of the whitespace run
      that ends at the first other character. */
  lemma {:induction false} LeadingSpacesUnique(s: string, k: nat)
    requires k <= |s| && AllSpace(s[..k]) && (k < |s| ==> !IsSpace(s[k]))
    ensures LeadingSpaces(s) == k
    decreases k
  {
    if k > 0 {
      assert s[..k][0] == s[0];
      assert s[1..][..k - 1] == s[..k][1..];
      LeadingSpacesUnique(s[1..], k - 1);
    }
  }

  /** The trailing-whitespace count is the length of the whitespace run
      that starts after the last other character. */
  lemma {:induction false} TrailingSpacesUnique(s: string, k: nat)
    requires k <= |s| && AllSpace(s[|s| - k..]) && (k < |s| ==> !IsSpace(s[|s| - k - 1]))
    ensures TrailingSpaces(s) == k
    decreases k
  {
    if k > 0 {
      var t := s[..|s| - 1];
      assert s[|s| - k..][k - 1] == s[|s| - 1];
      assert t[|t| - (k - 1)..] == s[|s| - k..][..k - 1];
      assert k - 1 < |t| ==> t[|t| - (k - 1) - 1] == s[|s| - k - 1];
      TrailingSpacesUnique(t, k - 1);
    }
  }

  /** `strip` removes exactly the surrounding whitespace: whatever sits
      between two runs of whitespace and neither starts nor ends with
      whitespace is what `strip` returns. */
  lemma StripExact(w1: string, t: string, w2: string)
    requires AllSpace(w1) && AllSpace(w2)
    requires t != [] ==> !IsSpace(t[0]) && !IsSpace(t[|t| - 1])
    ensures Strip(w1 + t + w2) == t
  {
    var s := w1 + t + w2;
    if t == [] {
      assert AllSpace(s) by {
        forall i | 0 <= i < |s| ensures IsSpace(s[i]) {
          if i < |w1| { assert s[i] == w1[i]; } else { assert s[i] == w2[i - |w1|]; }
        }
      }
    } else {
      assert s[..|w1|] == w1;
      assert s[|w1|] == t[0];
      LeadingSpacesUnique(s, |w1|);
      var u := s[|w1|..];
      assert u == t + w2;
      assert u[|u| - |w2|..] == w2;
      assert u[|u| - |w2| - 1] == t[|t| - 1];
      TrailingSpacesUnique(u, |w2|);
      assert u[..|u| - |w2|] == t;
    }
  }

  /** `strip` splits its input into whitespace, the result, whitespace. */
  lemma StripDecomposes(s: string)
    ensures exists i, j :: 0 <= i <= j <= |s| && s[i..j] == Strip(s) && AllSpace(s[..i]) && AllSpace(s[j..])
  {
    var n := LeadingSpaces(s);
    var t := s[n..];
    var m := TrailingSpaces(t);
    assert s[n..|s| - m] == t[..|t| - m];
    assert s[|s| - m..] == t[|t| - m..];
  }

  lemma {:induction false} StripIdempotent(s: string)
    ensures Strip(Strip(s)) == Strip(s)
  {
    var t := Strip(s);
    assert [] + t + [] == t;
    StripExact([], t, []);
  }

  predicate StartsWith(s: string, p: string) {
    |p| <= |s| && s[..|p|] == p
  }

  predicate EndsWith(s: string, p: string) {
    |p| <= |s| && s[|s| - |p|..] == p
  }

  /**
   * All fields of `s` between the occurrences of `sep`, found left to
   * right without overlap; `sep` never occurs empty. This is the scan
   * Ruby's `split` performs before it drops trailing empty fields.
   */
  function SplitAll(s: string, sep: string): (fields: seq<string>)
    requires sep != []
    ensures |fields| >= 1
    decreases |s|
  {
    if s == [] then [[]]
    else if StartsWith(s, sep) then [[]] + SplitAll(s[|sep|..], sep)
    else
      var rest := SplitAll(s[1..], sep);
      [[s[0]] + rest[0]] + rest[1..]
  }

  /** Fields glued back together with `sep` between them. */
  function Join(fields: seq<string>, sep: string): string {
    if fields == [] then []
    else if |fields| == 1 then fields[0]
    else fields[0] + sep + Join(fields[1..], sep)
  }

  function DropTrailingEmpty(fields: seq<string>): (r: seq<string>)
    ensures |r| <= |fields| && r == fields[..|r|]
    ensures r != [] ==> r[|r| - 1] != []
    ensures forall i :: |r| <= i < |fields| ==> fields[i] == []
  {
    if fields == [] || fields[|fields| - 1] != [] then fields
    else DropTrailingEmpty(fields[..|fields| - 1])
  }

  /**
   * `String#split` with a literal pattern and no limit. A single-space
   * pattern switches Ruby to whitespace splitting, which is not modelled.
   */
  function Split(s: string, sep: string): (fields: seq<string>)
    requires sep != [] && sep != " "
    ensures |fields| <= |SplitAll(s, sep)| && fields == SplitAll(s, sep)[..|fields|]
    ensures fields != [] ==> fields[|fields| - 1] != []
    ensures forall i :: |fields| <= i < |SplitAll(s, sep)| ==> SplitAll(s, sep)[i] == []
  {
    DropTrailingEmpty(SplitAll(s, sep))
  }

  /** Splitting loses nothing: joining the fields gives the input back. */
  lemma JoinEmptyFirst(g: seq<string>, sep: string)
    requires |g| >= 1
    ensures Join([[]] + g, sep) == sep + Join(g, sep)
  {
    assert ([[]] + g)[1..] == g;
  }

  lemma JoinExtendFirst(c: char, g: seq<string>, sep: string)
    requires |g| >= 1
    ensures Join([[c] + g[0]] + g[1..], sep) == [c] + Join(g, sep)
  {
    var fields := [[c] + g[0]] + g[1..];
    if |g| > 1 {
      assert fields[1..] == g[1..];
    }
  }

  lemma {:induction false} JoinSplitAll(s: string, sep: string)
    requires sep != []
    ensures Join(SplitAll(s, sep), sep) == s
    decreases |s|
  {
    if s == [] {
    } else if StartsWith(s, sep) {
      var s' := s[|sep|..];
      JoinSplitAll(s', sep);
      JoinEmptyFirst(SplitAll(s', sep), sep);
      assert s == sep + s';
    } else {
      JoinSplitAll(s[1..], sep);
      JoinExtendFirst(s[0], SplitAll(s[1..], sep), sep);
      assert s == [s[0]] + s[1..];
    }
  }

  /** No occurrence of `sep` starts at any of the first `n` positions of `x`. */
  predicate NoSepBefore(x: string, n: nat, sep: string)
    requires n <= |x|
  {
    n == 0 || (!StartsWith(x, sep) && NoSepBefore(x[1..], n - 1, sep))
  }

  /** A field that is not the last: `sep` does not start inside it, even
      overlapping the separator that follows it. */
  predicate InnerField(a: string, sep: string) {
    NoSepBefore(a + sep, |a|, sep)
  }

  /** The last field: `sep` does not occur in it. */
  predicate LastField(a: string, sep: string) {
    NoSepBefore(a, |a|, sep)
  }

  lemma {:induction false} InnerFieldExtends(a: string, sep: string, t: string)
    requires InnerField(a, sep)
    ensures NoSepBefore(a + sep + t, |a|, sep)
    decreases |a|
  {
    if a != [] {
      assert (a + sep)[1..] == a[1..] + sep;
      assert (a + sep + t)[1..] == a[1..] + sep + t;
      assert (a + sep + t)[..|sep|] == (a + sep)[..|sep|];
      InnerFieldExtends(a[1..], sep, t);
    }
  }

  lemma {:induction false} SplitAllFirst(a: string, sep: string, r: string)
    requires sep != [] && StartsWith(r, sep) && NoSepBefore(a + r, |a|, sep)
    ensures SplitAll(a + r, sep) == [a] + SplitAll(r[|sep|..], sep)
    decreases |a|
  {
    if a == [] {
      assert a + r == r;
    } else {
      assert (a + r)[1..] == a[1..] + r;
      SplitAllFirst(a[1..], sep, r);
      assert [a[0]] + a[1..] == a;
    }
  }

  lemma {:induction false} SplitAllLast(a: string, sep: string)
    requires sep != [] && LastField(a, sep)
    ensures SplitAll(a, sep) == [a]
    decreases |a|
  {
    if a != [] {
      SplitAllLast(a[1..], sep);
      assert [a[0]] + a[1..] == a;
    }
  }

  /** Joining fields that do not themselves contain the separator and
      then splitting gives the same fields back. */
  lemma {:induction false} SplitAllJoin(fields: seq<string>, sep: string)
    requires sep != [] && fields != []
    requires forall i :: 0 <= i < |fields| - 1 ==> InnerField(fields[i], sep)
    requires LastField(fields[|fields| - 1], sep)
    ensures SplitAll(Join(fields, sep), sep) == fields
    decreases |fields|
  {
    if |fields| == 1 {
      SplitAllLast(fields[0], sep);
    } else {
      var a, t := fields[0], Join(fields[1..], sep);
      InnerFieldExtends(a, sep, t);
      assert a + sep + t == a + (sep + t);
      assert (sep + t)[..|sep|] == sep;
      SplitAllFirst(a, sep, sep + t);
      assert (sep + t)[|sep|..] == t;
      SplitAllJoin(fields[1..], sep);
    }
  }

  /** A character in front of a field keeps it separator-free when the
      separator does not start at that character. */
  lemma InnerFieldCons(c: char, a: string, sep: string, t: string)
    requires sep != [] && InnerField(a, sep) && !StartsWith([c] + a + sep + t, sep)
    ensures InnerField([c] + a, sep)
  {
    var x := [c] + a;
    assert ([c] + a + sep + t)[..|sep|] == (x + sep)[..|sep|];
    assert (x + sep)[1..] == a + sep;
  }

  lemma LastFieldCons(c: char, a: string, sep: string)
    requires sep != [] && LastField(a, sep) && !StartsWith([c] + a, sep)
    ensures LastField([c] + a, sep)
  {
    assert ([c] + a)[1..] == a;
  }

  /** Fields none of which holds the separator: it neither starts inside
      an inner field, even overlapping the separator after it, nor
      occurs in the last one. */
  predicate SeparatorFree(fields: seq<string>, sep: string) {
    fields != [] &&
    (forall i :: 0 <= i < |fields| - 1 ==> InnerField(fields[i], sep)) &&
    LastField(fields[|fields| - 1], sep)
  }

  lemma SeparatorFreeEmptyFirst(g: seq<string>, sep: string)
    requires SeparatorFree(g, sep)
    ensures SeparatorFree([[]] + g, sep)
  {
    var f := [[]] + g;
    assert InnerField([], sep);
    forall i | 0 <= i < |f| - 1
      ensures InnerField(f[i], sep)
    {
      if i > 0 {
        assert f[i] == g[i - 1];
      }
    }
  }

  lemma SeparatorFreeExtendFirst(c: char, g: seq<string>, sep: string)
    requires sep != [] && SeparatorFree(g, sep) && !StartsWith([c] + Join(g, sep), sep)
    ensures SeparatorFree([[c] + g[0]] + g[1..], sep)
  {
    var f := [[c] + g[0]] + g[1..];
    if |g| == 1 {
      LastFieldCons(c, g[0], sep);
    } else {
      assert [c] + Join(g, sep) == [c] + g[0] + sep + Join(g[1..], sep);
      InnerFieldCons(c, g[0], sep, Join(g[1..], sep));
      forall i | 0 <= i < |f| - 1
        ensures InnerField(f[i], sep)
      {
        if i > 0 {
          assert f[i] == g[i];
        }
      }
    }
  }

  /** The converse: every field the scan produces is free of the
      separator, so the scan cuts at each occurrence, leftmost first. */
  lemma {:induction false} SplitAllFields(s: string, sep: string)
    requires sep != []
    ensures SeparatorFree(SplitAll(s, sep), sep)
    decreases |s|
  {
    if s == [] {
      assert LastField([], sep);
    } else if StartsWith(s, sep) {
      SplitAllFields(s[|sep|..], sep);
      SeparatorFreeEmptyFirst(SplitAll(s[|sep|..], sep), sep);
    } else {
      SplitAllFields(s[1..], sep);
      JoinSplitAll(s[1..], sep);
      assert s == [s[0]] + s[1..];
      SeparatorFreeExtendFirst(s[0], SplitAll(s[1..], sep), sep);
    }
  }

  /** The first field starts where the input starts, unless the input
      begins with the separator. */
  lemma FirstFieldStart(s: string, sep: string)
    requires sep != [] && s != [] && !StartsWith(s, sep)
    ensures SplitAll(s, sep)[0] != [] && SplitAll(s, sep)[0][0] == s[0]
  {
  }

  /** The last field is empty only when the input is empty or ends with
      the separator. */
  lemma EndsWithPrefix(p: string, t: string, sep: string)
    requires EndsWith(t, sep)
    ensures EndsWith(p + t, sep)
  {
    assert (p + t)[|p + t| - |sep|..] == t[|t| - |sep|..];
  }

  lemma {:induction false} LastFieldEmpty(s: string, sep: string)
    requires sep != []
    ensures var f := SplitAll(s, sep); f[|f| - 1] == [] ==> s == [] || EndsWith(s, sep)
    decreases |s|
  {
    var f := SplitAll(s, sep);
    if s != [] && StartsWith(s, sep) {
      var s' := s[|sep|..];
      var g := SplitAll(s', sep);
      LastFieldEmpty(s', sep);
      assert f == [[]] + g;
      assert f[|f| - 1] == g[|g| - 1];
      assert s == sep + s';
      if s' == [] {
        assert s == sep;
      } else if g[|g| - 1] == [] {
        EndsWithPrefix(sep, s', sep);
      }
    } else if s != [] {
      var s' := s[1..];
      var g := SplitAll(s', sep);
      LastFieldEmpty(s', sep);
      assert f == [[s[0]] + g[0]] + g[1..];
      assert s == [s[0]] + s';
      if |g| > 1 && g[|g| - 1] == [] {
        assert f[|f| - 1] == g[|g| - 1];
        EndsWithPrefix([s[0]], s', sep);
      }
    }
  }

  /** On text that does not end with the separator's last character,
      Ruby's `split` keeps every field except on the empty string. */
  lemma SplitNoTrailing(s: string, sep: string)
    requires sep != [] && sep != " "
    requires s != [] ==> s[|s| - 1] != sep[|sep| - 1]
    ensures Split(s, sep) == if s == [] then [] else SplitAll(s, sep)
  {
    LastFieldEmpty(s, sep);
  }
}
