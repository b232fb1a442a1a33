/** PHP's `str_replace` with parallel search and replace arrays, and what
    it reduces to when every search string is a single character. */
module PhpString {

  /** One entry of `str_replace`'s parallel arrays: `$search[i]` and `$replace[i]`. */
  datatype Pair = Pair(search: string, replace: string)

  /** `str_replace` with one search string: a left-to-right scan that replaces
      each non-overlapping occurrence; text already put in by the replacement
      is not scanned again.  An empty search string leaves the subject alone. */
  function ReplaceAll(s: string, search: string, replace: string): (r: string)
    ensures search == [] ==> r == s
    ensures replace == search ==> r == s
    ensures |replace| == |search| ==> |r| == |s|
    decreases |s|
  {
    if search == [] || |s| < |search| then s
    else if s[..|search|] == search then
      var rest := ReplaceAll(s[|search|..], search, replace);
      assert replace == search ==> replace + rest == s[..|search|] + s[|search|..];
      replace + rest
    else
      var rest := ReplaceAll(s[1..], search, replace);
      assert [s[0]] + s[1..] == s;
      [s[0]] + rest
  }

  /** `str_replace($search, $replace, $s)` with arrays: the pairs are applied
      in order, each one over the whole string that the previous ones left. */
  function StrReplace(pairs: seq<Pair>, s: string): (r: string)
    ensures (forall j :: 0 <= j < |pairs| ==> pairs[j].replace == pairs[j].search) ==> r == s
    ensures (forall j :: 0 <= j < |pairs| ==> |pairs[j].replace| == |pairs[j].search|) ==> |r| == |s|
  {
    if pairs == [] then s
    else StrReplace(pairs[1..], ReplaceAll(s, pairs[0].search, pairs[0].replace))
  }

  /** Every search string of `pairs` is exactly one character long. */
  ghost predicate SingleCharSearches(pairs: seq<Pair>)
  {
    forall j :: 0 <= j < |pairs| ==> |pairs[j].search| == 1
  }

  /** No search character of `pairs` occurs in `s`. */
  ghost predicate NoSearchIn(pairs: seq<Pair>, s: string)
    requires SingleCharSearches(pairs)
  {
    forall j :: 0 <= j < |pairs| ==> pairs[j].search[0] !in s
  }

  /** With a one-character search, replacing over a concatenation is
      replacing over each part: no occurrence can straddle the seam. */
  lemma {:induction false} ReplaceAllAppend(a: string, b: string, x: char, r: string)
    ensures ReplaceAll(a + b, [x], r) == ReplaceAll(a, [x], r) + ReplaceAll(b, [x], r)
    decreases |a|
  {
    if a == [] {
      assert a + b == b;
    } else {
      assert (a + b)[1..] == a[1..] + b;
      assert (a + b)[..1] == a[..1];
      ReplaceAllAppend(a[1..], b, x, r);
    }
  }

  /** A one-character search that does not occur leaves the subject unchanged. */
  lemma {:induction false} ReplaceAllAbsent(s: string, x: char, r: string)
    requires x !in s
    ensures ReplaceAll(s, [x], r) == s
    decreases |s|
  {
    if s != [] {
      assert s[..1] == [s[0]];
      assert x !in s[1..];
      ReplaceAllAbsent(s[1..], x, r);
    }
  }

  /** With one-character searches, the ordered replacement over a
      concatenation is the concatenation of the replacements. */
  lemma {:induction false} StrReplaceAppend(pairs: seq<Pair>, a: string, b: string)
    requires SingleCharSearches(pairs)
    ensures StrReplace(pairs, a + b) == StrReplace(pairs, a) + StrReplace(pairs, b)
    decreases |pairs|
  {
    if pairs != [] {
      var p := pairs[0];
      assert p.search == [p.search[0]];
      ReplaceAllAppend(a, b, p.search[0], p.replace);
      assert SingleCharSearches(pairs[1..]) by {
        forall j | 0 <= j < |pairs[1..]| ensures |pairs[1..][j].search| == 1 {
          assert pairs[1..][j] == pairs[j + 1];
        }
      }
      StrReplaceAppend(pairs[1..], ReplaceAll(a, p.search, p.replace), ReplaceAll(b, p.search, p.replace));
    }
  }

  /** A string holding none of the search characters comes through all the
      pairs unchanged. */
  lemma {:induction false} StrReplaceUntouched(pairs: seq<Pair>, s: string)
    requires SingleCharSearches(pairs)
    requires NoSearchIn(pairs, s)
    ensures StrReplace(pairs, s) == s
    decreases |pairs|
  {
    if pairs != [] {
      var p := pairs[0];
      assert p.search == [p.search[0]];
      ReplaceAllAbsent(s, p.search[0], p.replace);
      assert SingleCharSearches(pairs[1..]) && NoSearchIn(pairs[1..], s) by {
        forall j | 0 <= j < |pairs[1..]|
          ensures |pairs[1..][j].search| == 1 && pairs[1..][j].search[0] !in s
        {
          assert pairs[1..][j] == pairs[j + 1];
        }
      }
      StrReplaceUntouched(pairs[1..], s);
    }
  }

  /** A single character `c` that is the search of pair `k`, and of no earlier
      pair, becomes exactly `pairs[k].replace`, provided no later pair searches
      for a character of that replacement: the earlier pairs pass `c` through,
      pair `k` rewrites it, and the later pairs find nothing to do. */
  lemma {:induction false} StrReplaceHit(pairs: seq<Pair>, k: nat, c: char)
    requires SingleCharSearches(pairs)
    requires k < |pairs| && pairs[k].search == [c]
    requires forall j :: 0 <= j < k ==> pairs[j].search != [c]
    requires forall j :: k < j < |pairs| ==> pairs[j].search[0] !in pairs[k].replace
    ensures StrReplace(pairs, [c]) == pairs[k].replace
    decreases k
  {
    var p := pairs[0];
    assert p.search == [p.search[0]];
    var rest := pairs[1..];
    assert SingleCharSearches(rest) by {
      forall j | 0 <= j < |rest| ensures |rest[j].search| == 1 {
        assert rest[j] == pairs[j + 1];
      }
    }
    if k == 0 {
      assert ReplaceAll([c], p.search, p.replace) == p.replace + ReplaceAll([], p.search, p.replace);
      assert p.replace + [] == p.replace;
      assert NoSearchIn(rest, p.replace) by {
        forall j | 0 <= j < |rest| ensures rest[j].search[0] !in p.replace {
          assert rest[j] == pairs[j + 1];
        }
      }
      StrReplaceUntouched(rest, p.replace);
    } else {
      ReplaceAllAbsent([c], p.search[0], p.replace);
      forall j | 0 <= j < k - 1 ensures rest[j].search != [c] {
        assert rest[j] == pairs[j + 1];
      }
      forall j | k - 1 < j < |rest| ensures rest[j].search[0] !in rest[k - 1].replace {
        assert rest[j] == pairs[j + 1];
      }
      StrReplaceHit(rest, k - 1, c);
    }
  }
}
