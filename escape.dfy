/** The driver's Sphinx-specific `escape`: numbers and null pass through, any
    other value goes through one `str_replace` with a fixed 19-pair table and
    is optionally wrapped in single quotes. */
module SphinxEscape {
  import opened PhpString

  /** The values `escape` is called with: PHP null, a number, or a string. */
  datatype Value = Null | Number(n: int) | Str(s: string)

  /** The search characters of the table, in table order. */
  const SearchChars: string := "\\()|-!@~\"&/^$='\0\n\r\U{1A}"

  /** The table as the driver passes it to `str_replace`: backslash first,
      then the thirteen search-syntax characters, then the SQL hazards. */
  const EscapePairs: seq<Pair> := [
    Pair("\\", "\\\\"),
    Pair("(", "\\\\("), Pair(")", "\\\\)"), Pair("|", "\\\\|"), Pair("-", "\\\\-"),
    Pair("!", "\\\\!"), Pair("@", "\\\\@"), Pair("~", "\\\\~"), Pair("\"", "\\\\\""),
    Pair("&", "\\\\&"), Pair("/", "\\\\/"), Pair("^", "\\\\^"), Pair("$", "\\\\$"),
    Pair("=", "\\\\="),
    Pair("'", "\\'"), Pair("\0", "\\x00"), Pair("\n", "\\n"), Pair("\r", "\\r"),
    Pair("\U{1A}", "\\x1a")
  ]

  /** Search-syntax characters: escaped as two backslashes and the character. */
  predicate IsSyntaxChar(c: char)
  {
    c == '(' || c == ')' || c == '|' || c == '-' || c == '!' || c == '@' || c == '~' ||
    c == '"' || c == '&' || c == '/' || c == '^' || c == '$' || c == '='
  }

  /** Control characters that must never reach the server raw. */
  predicate IsControlChar(c: char)
  {
    c == '\0' || c == '\n' || c == '\r' || c == '\U{1A}'
  }

  /** Characters the table rewrites. */
  predicate IsSpecial(c: char)
  {
    c in SearchChars
  }

  /** What one input character becomes: the replacement of the pair that
      searches for it, or the character itself. */
  function Image(c: char): (r: string)
    ensures 1 <= |r| <= 4
    ensures !IsSpecial(c) ==> r == [c]
    ensures IsSpecial(c) ==> 2 <= |r| && r[0] == '\\'
  {
    if c == '\\' then ['\\', '\\']
    else if IsSyntaxChar(c) then ['\\', '\\', c]
    else if c == '\'' then "\\'"
    else if c == '\0' then "\\x00"
    else if c == '\n' then "\\n"
    else if c == '\r' then "\\r"
    else if c == '\U{1A}' then "\\x1a"
    else [c]
  }

  /** The single left-to-right per-character map. */
  function Escaped(s: string): string
  {
    if s == [] then [] else Image(s[0]) + Escaped(s[1..])
  }

  /** PHP's `is_numeric($value)`, with the string grammar left as a parameter. */
  predicate IsNumericValue(v: Value, isNumeric: string -> bool)
  {
    v.Number? || (v.Str? && isNumeric(v.s))
  }

  /** `escape($value, $quotes)`: numeric and null values come back as they
      are; any other string is escaped character by character and, when
      `quotes` is set, wrapped in single quotes. */
  function Escape(v: Value, quotes: bool, isNumeric: string -> bool): (r: Value)
    ensures IsNumericValue(v, isNumeric) || v.Null? ==> r == v
    ensures v.Str? && !isNumeric(v.s) ==>
      r == Str(if quotes then "'" + Escaped(v.s) + "'" else Escaped(v.s))
  {
    if IsNumericValue(v, isNumeric) || v.Null? then v
    else
      var replaced := StrReplace(EscapePairs, v.s);
      StrReplaceIsEscaped(v.s);
      if quotes then Str("'" + replaced + "'") else Str(replaced)
  }

  /** Every pair searches for one character, the `k`-th of `SearchChars`. */
  lemma EscapePairsSingleChar()
    ensures SingleCharSearches(EscapePairs)
    ensures forall k :: 0 <= k < |EscapePairs| ==> EscapePairs[k].search == [SearchChars[k]]
  {
  }

  /** Each character is searched for by one pair only. */
  lemma SearchCharsDistinct()
    ensures |SearchChars| == |EscapePairs|
    ensures forall i, j :: 0 <= i < j < |SearchChars| ==> SearchChars[i] != SearchChars[j]
  {
  }

  /** Characters that occur in replacements but are never searched for. */
  const InertChars: string := "x01anr"

  lemma InertCharsNotSearched()
    ensures forall i :: 0 <= i < |SearchChars| ==> SearchChars[i] !in InertChars
  {
  }

  /** Every character of a replacement is a backslash, the pair's own search
      character, or a character no pair searches for. */
  lemma ReplacementChars()
    ensures forall k, i :: 0 <= k < |EscapePairs| && 0 <= i < |EscapePairs[k].replace| ==>
      EscapePairs[k].replace[i] == '\\' || EscapePairs[k].replace[i] == SearchChars[k] ||
      EscapePairs[k].replace[i] in InertChars
  {
  }

  /** The fact the ordering rests on: no replacement holds the search
      character of a later pair.  Backslash, present in every replacement, is
      searched for by the first pair. */
  lemma EscapePairsOrdered()
    ensures forall k, j :: 0 <= k < j < |EscapePairs| ==> SearchChars[j] !in EscapePairs[k].replace
  {
    SearchCharsDistinct();
    InertCharsNotSearched();
    ReplacementChars();
    assert SearchChars[0] == '\\';
    forall k, j | 0 <= k < j < |EscapePairs| ensures SearchChars[j] !in EscapePairs[k].replace {
      forall i | 0 <= i < |EscapePairs[k].replace| ensures EscapePairs[k].replace[i] != SearchChars[j] {
        assert SearchChars[j] != SearchChars[0] && SearchChars[j] != SearchChars[k];
      }
    }
  }

  /** Pair `k` rewrites its own search character to exactly its replacement,
      through the whole ordered table. */
  lemma PairImage(k: nat)
    requires k < |EscapePairs|
    ensures StrReplace(EscapePairs, [SearchChars[k]]) == EscapePairs[k].replace
  {
    EscapePairsSingleChar();
    SearchCharsDistinct();
    EscapePairsOrdered();
    StrReplaceHit(EscapePairs, k, SearchChars[k]);
  }

  lemma SyntaxReplacements()
    ensures forall k :: 1 <= k < 14 ==> EscapePairs[k].replace == ['\\', '\\', SearchChars[k]]
    ensures forall k :: 1 <= k < 14 ==> IsSyntaxChar(SearchChars[k])
  {
  }

  lemma OtherReplacements()
    ensures SearchChars[0] == '\\' && EscapePairs[0].replace == ['\\', '\\']
    ensures SearchChars[14] == '\'' && EscapePairs[14].replace == "\\'"
    ensures SearchChars[15] == '\0' && EscapePairs[15].replace == "\\x00"
    ensures SearchChars[16] == '\n' && EscapePairs[16].replace == "\\n"
    ensures SearchChars[17] == '\r' && EscapePairs[17].replace == "\\r"
    ensures SearchChars[18] == '\U{1A}' && EscapePairs[18].replace == "\\x1a"
  {
  }

  /** The table's replacements are the per-character images. */
  lemma ReplacementIsImage(k: nat)
    requires k < |EscapePairs|
    ensures EscapePairs[k].replace == Image(SearchChars[k])
  {
    if 1 <= k < 14 {
      SyntaxReplacementIsImage(k);
    } else {
      OtherReplacementIsImage(k);
    }
  }

  lemma SyntaxReplacementIsImage(k: nat)
    requires 1 <= k < 14
    ensures EscapePairs[k].replace == Image(SearchChars[k])
  {
    SyntaxReplacements();
    var c := SearchChars[k];
    assert IsSyntaxChar(c) && c != '\\';
    assert Image(c) == ['\\', '\\', c];
  }

  lemma OtherReplacementIsImage(k: nat)
    requires k == 0 || 14 <= k < 19
    ensures EscapePairs[k].replace == Image(SearchChars[k])
  {
    OtherReplacements();
    if k == 0 { assert Image('\\') == ['\\', '\\']; }
    else if k == 14 { assert Image('\'') == "\\'"; }
    else if k == 15 { assert Image('\0') == "\\x00"; }
    else if k == 16 { assert Image('\n') == "\\n"; }
    else if k == 17 { assert Image('\r') == "\\r"; }
    else { assert Image('\U{1A}') == "\\x1a"; }
  }

  /** Running one character through the whole ordered table gives its image. */
  lemma TableImage(c: char)
    ensures StrReplace(EscapePairs, [c]) == Image(c)
  {
    EscapePairsSingleChar();
    if IsSpecial(c) {
      var k :| 0 <= k < |SearchChars| && SearchChars[k] == c;
      PairImage(k);
      ReplacementIsImage(k);
    } else {
      StrReplaceUntouched(EscapePairs, [c]);
    }
  }

  /** The ordered whole-string replacement of the driver equals the single
      per-character map. */
  lemma {:induction false} StrReplaceIsEscaped(s: string)
    ensures StrReplace(EscapePairs, s) == Escaped(s)
  {
    EscapePairsSingleChar();
    if s == [] {
      StrReplaceUntouched(EscapePairs, s);
    } else {
      calc {
        StrReplace(EscapePairs, s);
        { assert s == [s[0]] + s[1..]; }
        StrReplace(EscapePairs, [s[0]] + s[1..]);
        { StrReplaceAppend(EscapePairs, [s[0]], s[1..]); }
        StrReplace(EscapePairs, [s[0]]) + StrReplace(EscapePairs, s[1..]);
        { TableImage(s[0]); StrReplaceIsEscaped(s[1..]); }
        Image(s[0]) + Escaped(s[1..]);
      }
    }
  }

  /** A non-numeric string with nothing to escape comes back as it is,
      wrapped in single quotes when `quotes` is set. */
  lemma EscapePlainString(s: string, quotes: bool, isNumeric: string -> bool)
    requires Plain(s) && !isNumeric(s)
    ensures Escape(Str(s), quotes, isNumeric) == Str(if quotes then "'" + s + "'" else s)
  {
    EscapedCopiesPlain(s);
  }

  /** Escaping works character by character: it distributes over
      concatenation, so the images come out in input order. */
  lemma {:induction false} EscapedAppend(a: string, b: string)
    ensures Escaped(a + b) == Escaped(a) + Escaped(b)
  {
    if a == [] {
      assert a + b == b;
    } else {
      assert (a + b)[0] == a[0];
      assert (a + b)[1..] == a[1..] + b;
      EscapedAppend(a[1..], b);
    }
  }

  /** No character of `s` is rewritten by the table. */
  predicate Plain(s: string)
  {
    forall i :: 0 <= i < |s| ==> !IsSpecial(s[i])
  }

  /** Each character grows to at most four, and the output is exactly as long
      as the input precisely when no character is rewritten. */
  lemma {:induction false} EscapedLength(s: string)
    ensures |s| <= |Escaped(s)| <= 4 * |s|
    ensures |Escaped(s)| == |s| <==> Plain(s)
  {
    if s != [] {
      EscapedLength(s[1..]);
      assert Plain(s) <==> !IsSpecial(s[0]) && Plain(s[1..]) by {
        if !IsSpecial(s[0]) && Plain(s[1..]) {
          forall i | 0 <= i < |s| ensures !IsSpecial(s[i]) {
            if i > 0 { assert s[i] == s[1..][i - 1]; }
          }
        }
      }
    }
  }

  /** Characters outside the table are copied unchanged and in order. */
  lemma {:induction false} EscapedCopiesPlain(s: string)
    requires Plain(s)
    ensures Escaped(s) == s
  {
    if s != [] {
      assert !IsSpecial(s[0]);
      assert Plain(s[1..]) by {
        forall i | 0 <= i < |s[1..]| ensures !IsSpecial(s[1..][i]) {
          assert s[1..][i] == s[i + 1];
        }
      }
      EscapedCopiesPlain(s[1..]);
      assert s == [s[0]] + s[1..];
    }
  }

  /** Escaping leaves a string alone exactly when it has nothing to escape. */
  lemma EscapedUnchangedIff(s: string)
    ensures Escaped(s) == s <==> Plain(s)
  {
    EscapedLength(s);
    if Plain(s) { EscapedCopiesPlain(s); }
  }

  /** A string with something to escape gets a backslash in its output. */
  lemma {:induction false} EscapedHasBackslash(s: string)
    requires !Plain(s)
    ensures '\\' in Escaped(s)
  {
    if IsSpecial(s[0]) {
      assert Escaped(s)[0] == Image(s[0])[0];
    } else {
      assert !Plain(s[1..]) by {
        var i :| 0 <= i < |s| && IsSpecial(s[i]);
        assert i > 0 && s[1..][i - 1] == s[i];
      }
      EscapedHasBackslash(s[1..]);
    }
  }

  /** Escaping is not idempotent: once something was escaped, escaping the
      output again changes it (its backslashes are doubled). */
  lemma EscapeNotIdempotent(s: string)
    requires !Plain(s)
    ensures Escaped(Escaped(s)) != Escaped(s)
  {
    EscapedHasBackslash(s);
    EscapedUnchangedIff(Escaped(s));
  }

  /** `n` backslashes in a row. */
  function Backslashes(n: nat): (r: string)
    ensures |r| == n && forall i :: 0 <= i < n ==> r[i] == '\\'
  {
    seq(n, _ => '\\')
  }

  /** Re-escaping doubles backslashes: a run of `n` backslashes escapes to a
      run of `2 * n`. */
  lemma {:induction false} BackslashesDoubled(n: nat)
    ensures Escaped(Backslashes(n)) == Backslashes(2 * n)
  {
    if n > 0 {
      var s := Backslashes(n);
      assert s[1..] == Backslashes(n - 1);
      BackslashesDoubled(n - 1);
      assert Backslashes(2 * n) == ['\\', '\\'] + Backslashes(2 * (n - 1));
    }
  }

  /** Characters that the server would read as syntax unless a backslash
      stands right before them. */
  predicate NeedsGuard(c: char)
  {
    c == '\'' || IsSyntaxChar(c)
  }

  /** Every quote and syntax character is immediately preceded by a backslash. */
  predicate Guarded(e: string)
  {
    forall i :: 0 <= i < |e| && NeedsGuard(e[i]) ==> 0 < i && e[i - 1] == '\\'
  }

  /** No NUL, LF, CR or Ctrl-Z appears raw. */
  predicate NoRawControl(e: string)
  {
    forall i :: 0 <= i < |e| ==> !IsControlChar(e[i])
  }

  lemma ImageSafe(c: char)
    ensures Guarded(Image(c)) && NoRawControl(Image(c)) && !NeedsGuard(Image(c)[0])
  {
    if IsSyntaxChar(c) {
      SyntaxImageSafe(c);
    } else if IsControlChar(c) {
      ControlImageSafe(c);
    } else {
      OtherImageSafe(c);
    }
  }

  lemma SyntaxImageSafe(c: char)
    requires IsSyntaxChar(c)
    ensures Guarded(Image(c)) && NoRawControl(Image(c)) && !NeedsGuard(Image(c)[0])
  {
    assert Image(c) == ['\\', '\\', c];
    GuardedSyntaxShape(c);
  }

  lemma GuardedSyntaxShape(c: char)
    requires IsSyntaxChar(c)
    ensures Guarded(['\\', '\\', c]) && NoRawControl(['\\', '\\', c])
  {
    var r := ['\\', '\\', c];
    assert !IsControlChar(c) && !NeedsGuard('\\');
    assert r[0] == r[1] == '\\';
  }

  lemma ControlImageSafe(c: char)
    requires IsControlChar(c)
    ensures Guarded(Image(c)) && NoRawControl(Image(c)) && !NeedsGuard(Image(c)[0])
  {
    var r := Image(c);
    assert forall i :: 1 <= i < |r| ==> r[i] in InertChars;
  }

  lemma OtherImageSafe(c: char)
    requires !IsSyntaxChar(c) && !IsControlChar(c)
    ensures Guarded(Image(c)) && NoRawControl(Image(c)) && !NeedsGuard(Image(c)[0])
  {
    var r := Image(c);
    if c == '\\' {
      assert r == ['\\', '\\'];
    } else if c == '\'' {
      assert r == ['\\', '\''];
    } else {
      assert r == [c];
    }
  }

  lemma GuardedAppend(a: string, b: string)
    requires Guarded(a) && Guarded(b) && NoRawControl(a) && NoRawControl(b)
    requires b == [] || !NeedsGuard(b[0])
    ensures Guarded(a + b) && NoRawControl(a + b)
  {
    var e := a + b;
    forall i | 0 <= i < |e| && NeedsGuard(e[i]) ensures 0 < i && e[i - 1] == '\\' {
      if i >= |a| {
        assert e[i] == b[i - |a|];
        assert i - |a| > 0 && e[i - 1] == b[i - |a| - 1];
      }
    }
    forall i | 0 <= i < |e| ensures !IsControlChar(e[i]) {
      if i >= |a| { assert e[i] == b[i - |a|]; }
    }
  }

  /** In the escaped text every quote and syntax character has a backslash
      right before it, and no control character is left raw. */
  lemma {:induction false} EscapedSafe(s: string)
    ensures Guarded(Escaped(s)) && NoRawControl(Escaped(s))
    ensures Escaped(s) == [] || !NeedsGuard(Escaped(s)[0])
  {
    if s != [] {
      ImageSafe(s[0]);
      EscapedSafe(s[1..]);
      GuardedAppend(Image(s[0]), Escaped(s[1..]));
    }
  }

  /** A reader of the escaped text: undoes each backslash sequence the table
      produces and copies everything else. */
  function Unescape(e: string): string
    decreases |e|
  {
    if e == [] then []
    else if e[0] == '\\' && |e| >= 2 then
      if e[1] == '\\' then
        if |e| >= 3 && IsSyntaxChar(e[2]) then [e[2]] + Unescape(e[3..])
        else ['\\'] + Unescape(e[2..])
      else if e[1] == '\'' then ['\''] + Unescape(e[2..])
      else if e[1] == 'n' then ['\n'] + Unescape(e[2..])
      else if e[1] == 'r' then ['\r'] + Unescape(e[2..])
      else if |e| >= 4 && e[1..4] == "x00" then ['\0'] + Unescape(e[4..])
      else if |e| >= 4 && e[1..4] == "x1a" then ['\U{1A}'] + Unescape(e[4..])
      else [e[0]] + Unescape(e[1..])
    else [e[0]] + Unescape(e[1..])
  }

  lemma UnescapeImage(c: char, rest: string)
    requires rest == [] || !NeedsGuard(rest[0])
    ensures Unescape(Image(c) + rest) == [c] + Unescape(rest)
  {
    if c == '\\' {
      UnescapeBackslash(rest);
    } else if IsSyntaxChar(c) {
      UnescapeSyntax(c, rest);
    } else if c == '\'' || c == '\n' || c == '\r' {
      UnescapeShort(c, rest);
    } else if c == '\0' || c == '\U{1A}' {
      UnescapeHex(c, rest);
    } else {
      var e := Image(c) + rest;
      assert e[0] == c && e[1..] == rest;
    }
  }

  lemma UnescapeBackslash(rest: string)
    requires rest == [] || !NeedsGuard(rest[0])
    ensures Unescape(Image('\\') + rest) == ['\\'] + Unescape(rest)
  {
    var e := ['\\', '\\'] + rest;
    assert e[0] == '\\' && e[1] == '\\' && e[2..] == rest;
    assert |e| >= 3 ==> e[2] == rest[0];
  }

  lemma UnescapeSyntax(c: char, rest: string)
    requires IsSyntaxChar(c)
    ensures Unescape(Image(c) + rest) == [c] + Unescape(rest)
  {
    var e := ['\\', '\\', c] + rest;
    assert e[0] == '\\' && e[1] == '\\' && e[2] == c && e[3..] == rest;
  }

  lemma UnescapeShort(c: char, rest: string)
    requires c == '\'' || c == '\n' || c == '\r'
    ensures Unescape(Image(c) + rest) == [c] + Unescape(rest)
  {
    var e := Image(c) + rest;
    assert |Image(c)| == 2;
    assert e[0] == '\\' && e[1] == Image(c)[1] && e[2..] == rest;
  }

  lemma UnescapeHex(c: char, rest: string)
    requires c == '\0' || c == '\U{1A}'
    ensures Unescape(Image(c) + rest) == [c] + Unescape(rest)
  {
    var e := Image(c) + rest;
    assert |Image(c)| == 4;
    assert e[0] == '\\' && e[1] == 'x' && e[1..4] == Image(c)[1..4] && e[4..] == rest;
  }

  /** Nothing is lost: the escaped text determines the original string. */
  lemma {:induction false} UnescapeEscaped(s: string)
    ensures Unescape(Escaped(s)) == s
  {
    if s != [] {
      EscapedSafe(s[1..]);
      UnescapeImage(s[0], Escaped(s[1..]));
      UnescapeEscaped(s[1..]);
      assert s == [s[0]] + s[1..];
    }
  }

  /** Two different strings never escape to the same text. */
  lemma EscapedInjective(a: string, b: string)
    requires Escaped(a) == Escaped(b)
    ensures a == b
  {
    UnescapeEscaped(a);
    UnescapeEscaped(b);
  }
}
