# SphinxQL driver for Kohana's database layer, modelled in Dafny

The repository is a driver that lets Kohana's `Database` layer talk to a
Sphinx search server over SphinxQL (the MySQL wire protocol).  This project
models the part of `Kohana_Database_SphinxQL` that has logic of its own:

- `escape($value, $quotes)`: numeric and null values pass through; any other
  string goes through one PHP `str_replace` with two parallel 19-entry arrays
  and is optionally wrapped in single quotes.  `str_replace` is modelled as
  PHP runs it, a fold that applies each (search, replace) pair over the whole
  string left by the previous ones (`PhpString.StrReplace`), and the central
  lemma proves that for the driver's table this equals one left-to-right
  per-character map (`SphinxEscape.StrReplaceIsEscaped`).  It holds because
  backslash is replaced first and no replacement contains the search
  character of a later pair (`SphinxEscape.EscapePairsOrdered`).
- The driver object (`DatabaseSphinxQL.SphinxQL`): `connect` (idempotent,
  defaults merged with PHP array union), `disconnect`, `query` (the appended
  ` option max_matches=N` clause, `last_query` set only on success, the
  result shape by query type), and the operations the server does not
  support (`begin`, `commit`, `rollback`, `list_tables`, `list_columns`).
  The server's answers (connection accepted or refused, statement result or
  error, close result) are parameters of the methods.

Files: `php_string.dfy` (PHP `str_replace`), `escape.dfy` (the escape table
and its properties), `sphinxql.dfy` (the driver object).

## Model

| member | source | states |
|---|---|---|
| `PhpString.ReplaceAll` | classes/Kohana/Database/SphinxQL.php:213 | `str_replace` with one search string: an empty search leaves the subject unchanged, replacing a search by itself changes nothing, and a replacement of the search's length keeps the subject's length |
| `PhpString.StrReplace` | classes/Kohana/Database/SphinxQL.php:213 | `str_replace` with parallel arrays, applied pair by pair: identity pairs leave the subject unchanged, and pairs whose replacements match their searches in length keep its length |
| `PhpString.ReplaceAllAppend` | classes/Kohana/Database/SphinxQL.php:213 | replacing one single-character search over `a + b` is replacing over `a` and over `b` separately |
| `PhpString.ReplaceAllAbsent` | classes/Kohana/Database/SphinxQL.php:213 | a single-character search that does not occur leaves the subject unchanged |
| `PhpString.StrReplaceAppend` | classes/Kohana/Database/SphinxQL.php:213 | with single-character searches, the ordered multi-pair `str_replace` distributes over concatenation |
| `PhpString.StrReplaceUntouched` | classes/Kohana/Database/SphinxQL.php:213 | a string holding no search character comes through all pairs unchanged |
| `PhpString.StrReplaceHit` | classes/Kohana/Database/SphinxQL.php:211-213 | a character searched by pair k and no earlier pair becomes exactly pair k's replacement when no later pair searches a character of that replacement |
| `SphinxEscape.EscapePairsSingleChar` | classes/Kohana/Database/SphinxQL.php:211 | every search string of the table is one character, the k-th of the search alphabet |
| `SphinxEscape.SearchCharsDistinct` | classes/Kohana/Database/SphinxQL.php:211 | the 19 search characters are pairwise distinct, so each character is searched for by one pair only |
| `SphinxEscape.EscapePairsOrdered` | classes/Kohana/Database/SphinxQL.php:211-212 | no replacement contains the search character of a later pair |
| `SphinxEscape.ReplacementIsImage` | classes/Kohana/Database/SphinxQL.php:211-212 | the k-th replacement of the table is the per-character image of the k-th search character |
| `SphinxEscape.Image` | classes/Kohana/Database/SphinxQL.php:211-212 | a character outside the table is copied; a table character becomes 2 to 4 characters starting with a backslash |
| `SphinxEscape.PairImage` | classes/Kohana/Database/SphinxQL.php:211-213 | the k-th search character run through the whole ordered table yields exactly the k-th replacement |
| `SphinxEscape.TableImage` | classes/Kohana/Database/SphinxQL.php:211-213 | any single character run through the whole ordered table yields its per-character image |
| `SphinxEscape.StrReplaceIsEscaped` | classes/Kohana/Database/SphinxQL.php:211-213 | the ordered whole-string replacement equals the single left-to-right per-character map, for every string |
| `SphinxEscape.Escape` | classes/Kohana/Database/SphinxQL.php:204-223 | numeric and null values are returned unchanged whatever `quotes` is; a non-numeric string becomes its per-character escape, wrapped in `'…'` exactly when `quotes` is set |
| `SphinxEscape.EscapePlainString` | classes/Kohana/Database/SphinxQL.php:213-222 | a non-numeric string with no table character comes back as it is, quoted or not |
| `SphinxEscape.EscapedAppend` | classes/Kohana/Database/SphinxQL.php:213 | escaping distributes over concatenation, so images come out in input order |
| `SphinxEscape.EscapedLength` | classes/Kohana/Database/SphinxQL.php:211-213 | the output is between 1 and 4 times the input length, and equal in length exactly when no character is escaped |
| `SphinxEscape.EscapedCopiesPlain` | classes/Kohana/Database/SphinxQL.php:211-213 | characters outside the table are copied unchanged and in order |
| `SphinxEscape.EscapedUnchangedIff` | classes/Kohana/Database/SphinxQL.php:211-213 | escaping leaves a string unchanged if and only if it holds no table character |
| `SphinxEscape.EscapedHasBackslash` | classes/Kohana/Database/SphinxQL.php:211-213 | a string with a table character escapes to text containing a backslash |
| `SphinxEscape.EscapeNotIdempotent` | classes/Kohana/Database/SphinxQL.php:211-213 | escaping an escaped string again changes it whenever the first pass escaped anything |
| `SphinxEscape.BackslashesDoubled` | classes/Kohana/Database/SphinxQL.php:211-213 | a run of n backslashes escapes to a run of 2n, so escaping twice doubles backslashes again |
| `SphinxEscape.EscapedSafe` | classes/Kohana/Database/SphinxQL.php:211-213 | in the escaped text every `'` and syntax character is immediately preceded by a backslash, and no NUL, LF, CR or Ctrl-Z is left raw |
| `SphinxEscape.UnescapeEscaped` | classes/Kohana/Database/SphinxQL.php:211-213 | reading the backslash sequences back recovers the original string |
| `SphinxEscape.EscapedInjective` | classes/Kohana/Database/SphinxQL.php:211-213 | two different strings never escape to the same text |
| `DatabaseSphinxQL.ArrayUnion` | classes/Kohana/Database/SphinxQL.php:30-33 | PHP `$a + $b`: all keys of both sides, the left side's value wherever both have a key |
| `DatabaseSphinxQL.ConnectEndpoint` | classes/Kohana/Database/SphinxQL.php:30-33 | the configured hostname and port are used; `127.0.0.1` and `9306` only for missing keys |
| `DatabaseSphinxQL.NatToDecimal` | classes/Kohana/Database/SphinxQL.php:103 | PHP's integer-to-string: non-empty, all digits, no leading zero, and it denotes the number |
| `DatabaseSphinxQL.PhpToString` | classes/Kohana/Database/SphinxQL.php:103 | a string configuration value is concatenated as it is |
| `DatabaseSphinxQL.IntRendering` | classes/Kohana/Database/SphinxQL.php:103 | an integer renders as a minus sign exactly when it is negative, followed by the canonical decimal digits of its magnitude, and never holds an underscore |
| `DatabaseSphinxQL.IntRenderingInjective` | classes/Kohana/Database/SphinxQL.php:48 | different integers render as different text |
| `DatabaseSphinxQL.MaxMatches` | classes/Kohana/Database/SphinxQL.php:103 | `Arr::get` with default: the configured `max_matches` when the key is present, otherwise the integer 1000 |
| `DatabaseSphinxQL.SentText` | classes/Kohana/Database/SphinxQL.php:103 | the sent text is the caller's text followed by ` option max_matches=` and the configured value, or `1000` when the key is absent |
| `DatabaseSphinxQL.Fingerprint` | classes/Kohana/Database/SphinxQL.php:48 | the text hashed into the connection identifier is as long as hostname, underscore and port together, with the underscore right after the hostname |
| `DatabaseSphinxQL.FingerprintDeterminesEndpoint` | classes/Kohana/Database/SphinxQL.php:48 | with integer ports, equal identifier texts mean the same hostname text and the same port, so the underscore delimiter is unambiguous |
| `DatabaseSphinxQL.QueryErrorMessageParts` | classes/Kohana/Database/SphinxQL.php:122-125 | the `:error [ :query ]` message is the server's error, then ` [ `, then the sent text, then ` ]`; given the server's error, the sent text can be read back from it |
| `DatabaseSphinxQL.SphinxQL.Connect` | classes/Kohana/Database/SphinxQL.php:23-49 | with a handle present nothing changes; otherwise the handle is opened to the merged endpoint and the identifier recorded, or the refusal is raised with its message and code and no handle is left |
| `DatabaseSphinxQL.SphinxQL.Disconnect` | classes/Kohana/Database/SphinxQL.php:51-77 | without a live resource the result is true and nothing changes; otherwise the result is whether close succeeded, and the handle is dropped only then |
| `DatabaseSphinxQL.SphinxQL.Query` | classes/Kohana/Database/SphinxQL.php:101-154 | connects only when there is no handle, keeping an existing handle and identifier and recording both on an implicit connect; a refused connection raises its error with nothing else changed; a failed statement raises the server error with the suffixed text and leaves `last_query`; a successful one sets `last_query` to the suffixed text and returns rows for SELECT, (insert id, affected rows) for INSERT, affected rows otherwise |
| `DatabaseSphinxQL.SphinxQL.Execute` | classes/Kohana/Database/SphinxQL.php:113-153 | the statement phase of `query` on an open handle: the handle and identifier stay, the error carries the sent text, and on success `last_query` and the result are as above |
| `DatabaseSphinxQL.SphinxQL.Begin` | classes/Kohana/Database/SphinxQL.php:164-167 | always raises "Transactions not suported" with code 0 |
| `DatabaseSphinxQL.SphinxQL.Commit` | classes/Kohana/Database/SphinxQL.php:174-177 | always raises "Transactions not suported" with code 0 |
| `DatabaseSphinxQL.SphinxQL.Rollback` | classes/Kohana/Database/SphinxQL.php:183-186 | always raises "Transactions not suported" with code 0 |
| `DatabaseSphinxQL.SphinxQL.ListTables` | classes/Kohana/Database/SphinxQL.php:188-191 | always returns FALSE |
| `DatabaseSphinxQL.SphinxQL.ListColumns` | classes/Kohana/Database/SphinxQL.php:193-196 | always returns FALSE |

`SphinxEscape.Unescape` is not part of the driver: it is a reader of the
escaped text, written as the inverse against which `escape` is shown to lose
nothing.

## Notes on the code

- Only `query` (and `set_charset`) connect on demand.  `begin`, `commit`,
  `rollback`, `list_tables` and `list_columns` never touch the connection.
- Escaping is not a uniform one-backslash prefix.  The thirteen
  search-syntax characters are prefixed with two backslashes (`(` becomes
  `\\(`); a backslash becomes two backslashes.  `'`, NUL, LF, CR and
  Ctrl-Z get the one-backslash forms `\'`, `\x00`, `\n`, `\r` and `\x1a`.

## Left out

- The `mysqli` connection itself (opening, `query`, `close`, `error`/`errno`, `insert_id`, `affected_rows`): network I/O through a foreign driver; the server's answers are method parameters.
- `set_charset`: a driver call, and its `SET NAMES` branch relies on `quote()` of the base `Database` class, which is not part of this model.
- The `sha1` hash of the connection identifier: `connectionId` holds its input, hostname + `_` + port.
- `Profiler::start`/`stop`/`delete` and `Kohana::$profiling`: side effects in the framework profiler only.
- `Database_MySQLi_Result`: an external class; a SELECT result is an opaque value holding the result set, the sent text, `as_object` and `params`.
- `parent::disconnect()` after a successful close: it clears the base class's instance registry, which is not part of this model.
- `is_numeric` on strings: its PHP grammar (whitespace, exponents, hex) is not modelled; `escape` takes it as a parameter and every property holds for any such predicate.
- Values other than null, integers and strings given to `escape` (floats, booleans, arrays); numbers are modelled as integers.
- `is_resource` in `disconnect`: a parameter; for a `mysqli` object PHP answers false, so in practice the driver always returns true and keeps the handle.
- `as_object` as a class name and the contents of `params`: modelled as a flag and an optional list of strings that are passed through.
- Query types are the four the base class defines; any type other than SELECT and INSERT behaves like UPDATE and DELETE.
- A configuration without a `connection` sub-array (PHP fails on the union) and configuration values other than strings and integers.
- The unused statics `_current_databases` and `_identifier`.
