/**
 String helpers shared by the query builder, the controller and the request:
 joining with a separator the way the layer does it (append "item, sep" for
 every item, then cut the last separator off), `str_replace` with an empty
 replacement, `explode` on one character, `strpos` and `substr` prefixes.
 */
module Strings {
  import opened PhpValue

  /** `s` contains `pat` starting at position `i`. */
  predicate OccursAt(s: string, pat: string, i: nat) {
    i + |pat| <= |s| && s[i..i + |pat|] == pat
  }

  predicate Contains(s: string, pat: string) {
    exists i: nat | i <= |s| :: OccursAt(s, pat, i)
  }

  /** The number of bytes UTF-8 uses for one character. */
  function Utf8Width(c: char): (n: nat)
    ensures 1 <= n <= 4
    ensures n == 1 <==> c as int < 0x80
  {
    if c as int < 0x80 then 1
    else if c as int < 0x800 then 2
    else if c as int < 0x1_0000 then 3
    else 4
  }

  /** `strlen`: the length in bytes of the text's UTF-8 encoding. */
  function Strlen(s: string): (n: nat)
    ensures |s| <= n <= 4 * |s|
    ensures n == |s| <==> forall k :: 0 <= k < |s| ==> s[k] as int < 0x80
  {
    if |s| == 0 then 0
    else
      var n := Utf8Width(s[0]) + Strlen(s[1..]);
      assert forall k :: 1 <= k < |s| ==> s[1..][k - 1] == s[k];
      n
  }

  /** `strlen("ñ")` is 2: a character outside ASCII counts more than once. */
  lemma StrlenOfEnye()
    ensures |"ñ"| == 1 && Strlen("ñ") == 2
  {
  }

  /** `substr($s, 0, $n)` for `$n >= 0`: the first `n` characters, or all of `s`. */
  function Prefix(s: string, n: nat): (r: string)
    ensures |r| == if n < |s| then n else |s|
    ensures r <= s
  {
    if n < |s| then s[..n] else s
  }

  /** Items joined with `sep` between consecutive items (`implode`). */
  function Join(items: seq<string>, sep: string): string {
    if |items| == 0 then ""
    else if |items| == 1 then items[0]
    else items[0] + sep + Join(items[1..], sep)
  }

  /** Every item followed by `sep`: how the layer accumulates a list before trimming it. */
  function Suffixed(items: seq<string>, sep: string): (r: string)
    ensures |items| > 0 ==> |r| >= |sep|
  {
    if |items| == 0 then "" else items[0] + sep + Suffixed(items[1..], sep)
  }

  /** `substr($s, 0, -$n)`: `s` without its last `n` characters (empty when too short). */
  function DropLast(s: string, n: nat): (r: string)
    ensures n <= |s| ==> |r| == |s| - n
  {
    if n <= |s| then s[..|s| - n] else ""
  }

  /** Appending a separator after each item and cutting the last one off is joining. */
  lemma {:induction false} DropLastSuffixedIsJoin(items: seq<string>, sep: string)
    requires |items| > 0
    ensures DropLast(Suffixed(items, sep), |sep|) == Join(items, sep)
    decreases |items|
  {
    var rest := Suffixed(items[1..], sep);
    assert Suffixed(items, sep) == items[0] + sep + rest;
    if |items| == 1 {
      assert rest == "";
      assert (items[0] + sep + rest)[..|items[0]|] == items[0];
    } else {
      DropLastSuffixedIsJoin(items[1..], sep);
      var whole := items[0] + sep + rest;
      assert whole[..|whole| - |sep|] == items[0] + sep + rest[..|rest| - |sep|];
    }
  }

  // ------------------------------------------------------- str_replace

  /**
   `str_replace($pat, '', $s)`: every occurrence of `pat`, scanning left to
   right without overlaps, is removed. An empty `pat` leaves `s` unchanged.
   */
  function RemoveAll(s: string, pat: string): (r: string)
    ensures |r| <= |s|
    decreases |s|
  {
    if |pat| == 0 || |s| < |pat| then s
    else if s[..|pat|] == pat then RemoveAll(s[|pat|..], pat)
    else [s[0]] + RemoveAll(s[1..], pat)
  }

  /** A string with no occurrence of `pat` is left as it is. */
  lemma {:induction false} RemoveAllAbsent(s: string, pat: string)
    requires !Contains(s, pat)
    ensures RemoveAll(s, pat) == s
    decreases |s|
  {
    if |pat| == 0 || |s| < |pat| {
    } else {
      assert !OccursAt(s, pat, 0);
      assert s[0..|pat|] == s[..|pat|];
      NotContainedInTail(s, pat);
      RemoveAllAbsent(s[1..], pat);
      assert s == [s[0]] + s[1..];
    }
  }

  /** No occurrence in `s` means none in `s` without its first character. */
  lemma NotContainedInTail(s: string, pat: string)
    requires |s| > 0 && !Contains(s, pat)
    ensures !Contains(s[1..], pat)
  {
    forall i: nat | OccursAt(s[1..], pat, i)
      ensures OccursAt(s, pat, i + 1)
    {
      assert s[1..][i..i + |pat|] == s[i + 1..i + 1 + |pat|];
    }
  }

  /**
   A pattern whose first character does not recur in it cannot overlap
   itself, so appending it to a string without occurrences adds exactly one
   occurrence, which the removal takes away again.
   */
  lemma {:induction false} RemoveAllTrailing(s: string, pat: string)
    requires |pat| > 0 && forall k :: 1 <= k < |pat| ==> pat[k] != pat[0]
    requires !Contains(s, pat)
    ensures RemoveAll(s + pat, pat) == s
    decreases |s|
  {
    var t := s + pat;
    if |s| == 0 {
      assert t == pat + "";
      RemoveAllLeading(pat, "");
    } else {
      if |s| >= |pat| {
        assert !OccursAt(s, pat, 0);
        assert t[..|pat|] == s[..|pat|];
      } else {
        assert t[|s|] == pat[0];
        assert t[..|pat|][|s|] == t[|s|];
      }
      assert t[..|pat|] != pat;
      NotContainedInTail(s, pat);
      RemoveAllTrailing(s[1..], pat);
      assert t[1..] == s[1..] + pat;
      assert s == [s[0]] + s[1..];
    }
  }

  /** Removal distributes over a leading occurrence: `pat + s` loses the `pat`. */
  lemma RemoveAllLeading(pat: string, s: string)
    requires |pat| > 0
    ensures RemoveAll(pat + s, pat) == RemoveAll(s, pat)
  {
    assert (pat + s)[..|pat|] == pat;
    assert (pat + s)[|pat|..] == s;
  }

  /** A prefix without the pattern's first character is kept by the removal. */
  lemma {:induction false} RemoveAllPrefix(p: string, s: string, pat: string)
    requires |pat| > 0 && forall k :: 0 <= k < |p| ==> p[k] != pat[0]
    ensures RemoveAll(p + s, pat) == p + RemoveAll(s, pat)
    decreases |p|
  {
    if |p| == 0 {
      assert p + s == s;
    } else {
      var t := p + s;
      var rest := p[1..];
      assert t[1..] == rest + s;
      RemoveAllPrefix(rest, s, pat);
      if |t| >= |pat| {
        assert t[..|pat|][0] == p[0];
        assert RemoveAll(t, pat) == [p[0]] + RemoveAll(rest + s, pat);
      } else {
        assert RemoveAll(s, pat) == s;
      }
      assert p == [p[0]] + rest;
    }
  }

  // ------------------------------------------------------------ explode

  /** `explode($d, $s)` for a one-character delimiter: the pieces between delimiters. */
  function Explode(s: string, d: char): (r: seq<string>)
    ensures |r| > 0
  {
    if |s| == 0 then [""]
    else
      var rest := Explode(s[1..], d);
      if s[0] == d then [""] + rest else [[s[0]] + rest[0]] + rest[1..]
  }

  /** The pieces of `s` that are not empty, in order. */
  function NonEmpty(pieces: seq<string>): (r: seq<string>)
    ensures forall k :: 0 <= k < |r| ==> r[k] != ""
    ensures forall k :: 0 <= k < |r| ==> r[k] in pieces
  {
    if |pieces| == 0 then []
    else if pieces[0] == "" then NonEmpty(pieces[1..])
    else [pieces[0]] + NonEmpty(pieces[1..])
  }

  /** The non-empty `d`-separated segments of `s`. */
  function Segments(s: string, d: char): seq<string> {
    NonEmpty(Explode(s, d))
  }

  /** `s` with every `d` deleted. */
  function Without(s: string, d: char): string {
    if |s| == 0 then "" else (if s[0] == d then "" else [s[0]]) + Without(s[1..], d)
  }

  /** Plain concatenation of the items. */
  function Concat(items: seq<string>): string {
    if |items| == 0 then "" else items[0] + Concat(items[1..])
  }

  /** A string without the delimiter is a single piece. */
  lemma {:induction false} ExplodeWithout(a: string, d: char)
    requires d !in a
    ensures Explode(a, d) == [a]
    decreases |a|
  {
    if |a| > 0 {
      ExplodeWithout(a[1..], d);
      assert a == [a[0]] + a[1..];
    }
  }

  /** The first delimiter ends the first piece; the rest is exploded on its own. */
  lemma {:induction false} ExplodeAtFirst(a: string, d: char, b: string)
    requires d !in a
    ensures Explode(a + [d] + b, d) == [a] + Explode(b, d)
    decreases |a|
  {
    var s := a + [d] + b;
    if |a| == 0 {
      assert s == [d] + b;
      assert s[1..] == b;
    } else {
      assert s[1..] == a[1..] + [d] + b;
      ExplodeAtFirst(a[1..], d, b);
      assert a == [a[0]] + a[1..];
    }
  }

  /** Joining the pieces back with the delimiter rebuilds the string: no text is lost. */
  lemma {:induction false} ExplodeJoin(s: string, d: char)
    ensures Join(Explode(s, d), [d]) == s
    ensures forall k :: 0 <= k < |Explode(s, d)| ==> d !in Explode(s, d)[k]
    decreases |s|
  {
    if |s| > 0 {
      ExplodeJoin(s[1..], d);
      var rest := Explode(s[1..], d);
      if s[0] == d {
        assert Explode(s, d) == [""] + rest;
        assert ([""] + rest)[1..] == rest;
        assert s == "" + [d] + s[1..];
      } else {
        var r := [[s[0]] + rest[0]] + rest[1..];
        assert Explode(s, d) == r;
        if |rest| == 1 {
          assert Join(r, [d]) == [s[0]] + rest[0];
        } else {
          assert r[1..] == rest[1..];
          assert Join(rest, [d]) == rest[0] + [d] + Join(rest[1..], [d]);
        }
        assert s == [s[0]] + s[1..];
        forall k | 0 <= k < |r| ensures d !in r[k] {
          if k > 0 { assert r[k] == rest[k]; }
        }
      }
    }
  }

  /** The non-empty segments hold exactly the characters of `s` other than `d`. */
  lemma {:induction false} SegmentsCoverText(s: string, d: char)
    ensures Concat(Segments(s, d)) == Without(s, d)
    decreases |s|
  {
    if |s| > 0 {
      SegmentsCoverText(s[1..], d);
      var rest := Explode(s[1..], d);
      if s[0] == d {
        assert Explode(s, d) == [""] + rest;
        assert ([""] + rest)[1..] == rest;
      } else {
        var r := [[s[0]] + rest[0]] + rest[1..];
        assert Explode(s, d) == r;
        assert r[1..] == rest[1..];
        if rest[0] == "" {
          assert NonEmpty(rest) == NonEmpty(rest[1..]);
          assert [s[0]] + rest[0] == [s[0]];
          assert NonEmpty(r) == [[s[0]]] + NonEmpty(rest[1..]);
        } else {
          assert NonEmpty(rest) == [rest[0]] + NonEmpty(rest[1..]);
          assert NonEmpty(r) == [[s[0]] + rest[0]] + NonEmpty(rest[1..]);
        }
      }
    }
  }

  // ------------------------------------------------------------- strpos

  /**
   `strpos($h, $n)`: the first position where `n` occurs in `h`, `None` for
   PHP's `false`. An empty needle yields `false` (PHP 7).
   */
  function StrPos(h: string, n: string): (r: Option<nat>)
    ensures r.Some? ==> OccursAt(h, n, r.value)
    ensures r.Some? ==> forall q: nat :: q < r.value ==> !OccursAt(h, n, q)
    ensures r.None? ==> |n| == 0 || !Contains(h, n)
  {
    if |n| == 0 then None else StrPosFrom(h, n, 0)
  }

  function StrPosFrom(h: string, n: string, i: nat): (r: Option<nat>)
    requires forall q: nat :: q < i ==> !OccursAt(h, n, q)
    ensures r.Some? ==> OccursAt(h, n, r.value)
    ensures r.Some? ==> forall q: nat :: q < r.value ==> !OccursAt(h, n, q)
    ensures r.None? ==> !Contains(h, n)
    decreases |h| - i
  {
    if i + |n| > |h| then None
    else if h[i..i + |n|] == n then Some(i)
    else StrPosFrom(h, n, i + 1)
  }
}
