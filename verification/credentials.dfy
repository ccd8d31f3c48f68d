/**
 * The line loop of `apiCredentialsFromFile` (main.go): each line must split on
 * `=` into exactly a key and a value; the key, lower-cased, must be `api_key`
 * or `api_secret`; later lines overwrite earlier ones and a key never given
 * stays empty. Opening the file and cutting it into lines are not modelled.
 */
module Credentials {
  import opened Wrappers

  /** The pair handed to `credentials.NewStaticCredentials`. */
  datatype Credentials = Credentials(apiKey: string, apiSecret: string)

  /** The two rejections, each carrying the 1-based number of the offending line. */
  datatype CredentialsError = InvalidLineFormat(line: nat) | InvalidKey(line: nat)

  /** `strings.Split(s, string(sep))`: the pieces between occurrences of `sep`. */
  function Split(s: string, sep: char): seq<string>
  {
    if s == [] then [[]]
    else
      var tail := Split(s[1..], sep);
      if s[0] == sep then [[]] + tail
      else [[s[0]] + tail[0]] + tail[1..]
  }

  /** Splitting yields one piece more than there are separators. */
  lemma {:induction false} SplitCount(s: string, sep: char)
    ensures |Split(s, sep)| == multiset(s)[sep] + 1
    decreases |s|
  {
    if s != [] {
      assert s == [s[0]] + s[1..];
      SplitCount(s[1..], sep);
    }
  }

  /** No piece holds a separator. */
  lemma {:induction false} SplitPiecesClean(s: string, sep: char)
    ensures forall i :: 0 <= i < |Split(s, sep)| ==> sep !in Split(s, sep)[i]
    decreases |s|
  {
    if s != [] {
      SplitPiecesClean(s[1..], sep);
      var tail := Split(s[1..], sep);
      if s[0] != sep {
        var parts := [[s[0]] + tail[0]] + tail[1..];
        assert forall i :: 0 < i < |parts| ==> parts[i] == tail[i];
      }
    }
  }

  /** Joining the pieces gives back the input. */
  lemma {:induction false} SplitJoinsBack(s: string, sep: char)
    ensures Join(Split(s, sep), sep) == s
    decreases |s|
  {
    if s != [] {
      assert s == [s[0]] + s[1..];
      SplitJoinsBack(s[1..], sep);
      var tail := Split(s[1..], sep);
      if s[0] == sep {
        assert ([[]] + tail)[1..] == tail;
      } else {
        var parts := [[s[0]] + tail[0]] + tail[1..];
        if |tail| > 1 {
          assert parts[1..] == tail[1..];
          assert Join(tail, sep) == tail[0] + [sep] + Join(tail[1..], sep);
          assert Join(parts, sep) == ([s[0]] + tail[0]) + [sep] + Join(tail[1..], sep);
        }
      }
    }
  }

  /** `strings.Join(parts, string(sep))`, the inverse of `Split`. */
  function Join(parts: seq<string>, sep: char): string
    requires |parts| >= 1
  {
    if |parts| == 1 then parts[0] else parts[0] + [sep] + Join(parts[1..], sep)
  }

  /** Splitting what was joined gives back the pieces, when none contains the separator. */
  lemma {:induction false} SplitJoin(parts: seq<string>, sep: char)
    requires |parts| >= 1
    requires forall i :: 0 <= i < |parts| ==> sep !in parts[i]
    ensures Split(Join(parts, sep), sep) == parts
    decreases |parts|, |parts[0]|
  {
    var head := parts[0];
    if head == [] {
      if |parts| > 1 {
        var rest := Join(parts[1..], sep);
        assert Join(parts, sep) == [sep] + rest;
        assert ([sep] + rest)[1..] == rest;
        SplitJoin(parts[1..], sep);
      }
    } else {
      var shorter := [head[1..]] + parts[1..];
      assert forall i :: 0 < i < |shorter| ==> shorter[i] == parts[i];
      assert head[0] != sep by { assert head[0] in head; }
      SplitJoin(shorter, sep);
      var joined := Join(parts, sep);
      assert Join(shorter, sep) == joined[1..] by {
        if |parts| > 1 {
          assert joined == [head[0]] + (head[1..] + [sep] + Join(parts[1..], sep));
          assert shorter[1..] == parts[1..];
        }
      }
      assert joined[0] == head[0];
      assert [head[0]] + head[1..] == head;
    }
  }

  /**
   * Go's `unicode.ToLower` on the runes whose lower case is an ASCII letter:
   * A-Z, KELVIN SIGN (to `k`) and LATIN CAPITAL LETTER I WITH DOT ABOVE (to
   * `i`). Every other rune is left as it is; its real lower case is never one
   * of the ASCII letters the keys are compared with.
   */
  function LowerRune(c: char): char
  {
    if 'A' <= c <= 'Z' then (c as int + 32) as char
    else if c == '\U{212A}' then 'k'
    else if c == '\U{0130}' then 'i'
    else c
  }

  /** `strings.ToLower`, rune by rune, as far as the key comparison can tell. */
  function ToLower(s: string): string
  {
    seq(|s|, i requires 0 <= i < |s| => LowerRune(s[i]))
  }

  /**
   * Lower-casing keeps the length and leaves nothing to lower-case again: a
   * lower-cased key holds no A-Z, KELVIN SIGN or dotted capital I.
   */
  lemma ToLowerIdempotent(s: string)
    ensures |ToLower(s)| == |s|
    ensures forall i :: 0 <= i < |s| ==> !('A' <= ToLower(s)[i] <= 'Z') && ToLower(s)[i] != '\U{212A}' && ToLower(s)[i] != '\U{0130}'
    ensures ToLower(ToLower(s)) == ToLower(s)
  {
  }

  /** Which of the two credentials a line sets. */
  datatype Field = ApiKey | ApiSecret

  /** What one line means on its own. */
  datatype LineMeaning = Assign(field: Field, value: string) | BadFormat | BadKey

  /** The classification the loop body applies to one line. */
  function ReadLine(line: string): LineMeaning
  {
    var parts := Split(line, '=');
    if |parts| != 2 then BadFormat
    else
      var key := ToLower(parts[0]);
      if key == "api_key" then Assign(ApiKey, parts[1])
      else if key == "api_secret" then Assign(ApiSecret, parts[1])
      else BadKey
  }

  /** `acc` with `field` set to `value`. */
  function Set(acc: Credentials, field: Field, value: string): Credentials
  {
    match field
    case ApiKey => acc.(apiKey := value)
    case ApiSecret => acc.(apiSecret := value)
  }

  /** The loop from line `next` (0-based) on, with `acc` holding what earlier lines set. */
  function ParseFrom(lines: seq<string>, next: nat, acc: Credentials): Result<Credentials, CredentialsError>
    requires next <= |lines|
    decreases |lines| - next
  {
    if next == |lines| then Success(acc)
    else
      match ReadLine(lines[next])
      case BadFormat => Failure(InvalidLineFormat(next + 1))
      case BadKey => Failure(InvalidKey(next + 1))
      case Assign(field, value) => ParseFrom(lines, next + 1, Set(acc, field, value))
  }

  /** `apiCredentialsFromFile` on a file whose lines are `lines`. */
  function ParseCredentialLines(lines: seq<string>): Result<Credentials, CredentialsError>
  {
    ParseFrom(lines, 0, Credentials("", ""))
  }

  /** The line is accepted: it assigns one of the two credentials. */
  predicate LineOk(line: string)
  {
    ReadLine(line).Assign?
  }

  /** The value the last line assigning `field` gives it, or "" if no line does. */
  function LastValue(lines: seq<string>, field: Field): string
  {
    if lines == [] then ""
    else
      var m := ReadLine(lines[|lines| - 1]);
      if m.Assign? && m.field == field then m.value
      else LastValue(lines[..|lines| - 1], field)
  }

  /** Line `j` (0-based) is the first line the loop rejects. */
  predicate FirstBadLine(lines: seq<string>, j: int)
  {
    0 <= j < |lines| && !LineOk(lines[j]) && forall i :: 0 <= i < j ==> LineOk(lines[i])
  }

  /** The error the loop reports for a rejected line with 1-based number `lineNr`. */
  function ErrorFor(line: string, lineNr: nat): CredentialsError
  {
    if ReadLine(line).BadFormat? then InvalidLineFormat(lineNr) else InvalidKey(lineNr)
  }

  /**
   * `r` is what the whole-file description gives for `lines`: success exactly
   * when every line is accepted, then the last value given to each key, and
   * otherwise the error of the first bad line, by its 1-based number.
   */
  predicate AgreesWithLines(lines: seq<string>, r: Result<Credentials, CredentialsError>)
  {
    && (r.Success? <==> forall i :: 0 <= i < |lines| ==> LineOk(lines[i]))
    && (r.Success? ==> r.value == Credentials(LastValue(lines, ApiKey), LastValue(lines, ApiSecret)))
    && (r.Failure? ==> r.error.line >= 1 && FirstBadLine(lines, r.error.line - 1)
                       && r.error == ErrorFor(lines[r.error.line - 1], r.error.line))
  }

  /** The loop from any line on agrees with the whole-file description. */
  lemma {:induction false} ParseFromMeetsSpec(lines: seq<string>, next: nat, acc: Credentials)
    requires next <= |lines|
    requires forall i :: 0 <= i < next ==> LineOk(lines[i])
    requires acc == Credentials(LastValue(lines[..next], ApiKey), LastValue(lines[..next], ApiSecret))
    ensures AgreesWithLines(lines, ParseFrom(lines, next, acc))
    decreases |lines| - next
  {
    if next == |lines| {
      assert lines[..next] == lines;
    } else {
      var m := ReadLine(lines[next]);
      if m.Assign? {
        var acc' := Set(acc, m.field, m.value);
        assert ParseFrom(lines, next, acc) == ParseFrom(lines, next + 1, acc');
        assert acc' == Credentials(LastValue(lines[..next + 1], ApiKey), LastValue(lines[..next + 1], ApiSecret)) by {
          LastValueStep(lines, next);
        }
        ParseFromMeetsSpec(lines, next + 1, acc');
      } else {
        ParseFromRejects(lines, next, acc);
      }
    }
  }

  /** A rejected line after accepted ones ends the loop with its error. */
  lemma ParseFromRejects(lines: seq<string>, next: nat, acc: Credentials)
    requires next < |lines| && !LineOk(lines[next])
    requires forall i :: 0 <= i < next ==> LineOk(lines[i])
    ensures ParseFrom(lines, next, acc) == Failure(ErrorFor(lines[next], next + 1))
    ensures ErrorFor(lines[next], next + 1).line == next + 1
    ensures FirstBadLine(lines, next)
  {
  }

  /** Reading one more accepted line updates the field it assigns and nothing else. */
  lemma LastValueStep(lines: seq<string>, next: nat)
    requires next < |lines| && LineOk(lines[next])
    ensures var m := ReadLine(lines[next]);
            Credentials(LastValue(lines[..next + 1], ApiKey), LastValue(lines[..next + 1], ApiSecret))
            == Set(Credentials(LastValue(lines[..next], ApiKey), LastValue(lines[..next], ApiSecret)), m.field, m.value)
  {
    var prefix := lines[..next + 1];
    assert prefix[..|prefix| - 1] == lines[..next];
    assert prefix[|prefix| - 1] == lines[next];
  }

  /**
   * The parser accepts exactly the files whose every line assigns a known key;
   * then each credential is the value of the last line assigning it, or "".
   * Otherwise it reports the first bad line, by its 1-based number.
   */
  lemma ParseCredentialLinesMeetsSpec(lines: seq<string>)
    ensures var r := ParseCredentialLines(lines);
            && (r.Success? <==> forall i :: 0 <= i < |lines| ==> LineOk(lines[i]))
            && (r.Success? ==> r.value == Credentials(LastValue(lines, ApiKey), LastValue(lines, ApiSecret)))
            && (r.Failure? ==> r.error.line >= 1 && FirstBadLine(lines, r.error.line - 1)
                               && r.error == ErrorFor(lines[r.error.line - 1], r.error.line))
  {
    assert lines[..0] == [];
    ParseFromMeetsSpec(lines, 0, Credentials("", ""));
    assert AgreesWithLines(lines, ParseCredentialLines(lines));
  }

  /** A line `key=value` with no other `=` is read as its key, lower-cased, and its value. */
  lemma KeyValueLine(key: string, value: string)
    requires '=' !in key && '=' !in value
    ensures ReadLine(key + "=" + value)
         == if ToLower(key) == "api_key" then Assign(ApiKey, value)
            else if ToLower(key) == "api_secret" then Assign(ApiSecret, value)
            else BadKey
  {
    var parts := [key, value];
    assert Join(parts, '=') == key + "=" + value;
    SplitJoin(parts, '=');
  }

  /** A line needs exactly one `=`: none (an empty line, say) or two (a value holding `=`) is a format error. */
  lemma FormatNeedsOneEquals(line: string)
    ensures ReadLine(line).BadFormat? <==> multiset(line)['='] != 1
  {
    SplitCount(line, '=');
  }

  /** An empty line after accepted ones stops the parse with a format error naming its line. */
  lemma EmptyLineRejected(lines: seq<string>, j: nat)
    requires j < |lines| && lines[j] == ""
    requires forall i :: 0 <= i < j ==> LineOk(lines[i])
    ensures ParseCredentialLines(lines) == Failure(InvalidLineFormat(j + 1))
  {
    FormatNeedsOneEquals(lines[j]);
    ParseCredentialLinesMeetsSpec(lines);
  }

  /** A value containing `=` after accepted lines stops the parse with a format error naming its line. */
  lemma ValueWithEqualsRejected(lines: seq<string>, j: nat, key: string, value: string)
    requires j < |lines| && lines[j] == key + "=" + value && '=' in value
    requires forall i :: 0 <= i < j ==> LineOk(lines[i])
    ensures ParseCredentialLines(lines) == Failure(InvalidLineFormat(j + 1))
  {
    assert multiset(lines[j])['='] >= 2 by {
      assert multiset(lines[j]) == multiset(key) + multiset{'='} + multiset(value);
    }
    FormatNeedsOneEquals(lines[j]);
    ParseCredentialLinesMeetsSpec(lines);
  }

  /**
   * Keys match whatever their case: `API_Key` sets the API key, and so does a
   * key spelled with KELVIN SIGN, which Go lower-cases to `k`.
   */
  lemma KeysIgnoreCase(value: string)
    requires '=' !in value
    ensures ReadLine("API_Key=" + value) == Assign(ApiKey, value)
    ensures ReadLine("Api_Secret=" + value) == Assign(ApiSecret, value)
    ensures ReadLine("API_\U{212A}EY=" + value) == Assign(ApiKey, value)
  {
    assert ToLower("API_\U{212A}EY") == "api_key";
    assert "API_\U{212A}EY=" + value == "API_\U{212A}EY" + "=" + value;
    KeyValueLine("API_\U{212A}EY", value);
    assert ToLower("API_Key") == "api_key";
    assert ToLower("Api_Secret") == "api_secret";
    assert "API_Key=" + value == "API_Key" + "=" + value;
    assert "Api_Secret=" + value == "Api_Secret" + "=" + value;
    KeyValueLine("API_Key", value);
    KeyValueLine("Api_Secret", value);
  }

  /**
   * `r` is one way to write the lower-case rune `c` in a key: `c` itself, its
   * ASCII capital, or, for `k` and `i`, KELVIN SIGN and LATIN CAPITAL LETTER
   * I WITH DOT ABOVE, which Go lower-cases to them.
   */
  predicate SpellsLetter(r: char, c: char)
  {
    || r == c
    || ('a' <= c <= 'z' && r as int == c as int - 32)
    || (c == 'k' && r == '\U{212A}')
    || (c == 'i' && r == '\U{0130}')
  }

  /**
   * `key` spells `word` rune by rune, each rune in a spelling
   * `strings.ToLower` maps to it. This is not `strings.EqualFold`, which
   * would also match U+017F (long s) to `s` and would not match U+0130.
   */
  predicate SpellsWord(key: string, word: string)
  {
    |key| == |word| && forall i :: 0 <= i < |key| ==> SpellsLetter(key[i], word[i])
  }

  /** A word of lower-case ASCII letters and `_`, as both keys are. */
  predicate LowerWord(word: string)
  {
    forall i :: 0 <= i < |word| ==> 'a' <= word[i] <= 'z' || word[i] == '_'
  }

  /** A rune lower-cases to a lower-case letter or `_` exactly when it spells it. */
  lemma LowerRuneSpells(r: char, c: char)
    requires 'a' <= c <= 'z' || c == '_'
    ensures LowerRune(r) == c <==> SpellsLetter(r, c)
  {
  }

  /** A key lower-cases to a lower-case word exactly when it spells the word in some case. */
  lemma ToLowerMatches(key: string, word: string)
    requires LowerWord(word)
    ensures ToLower(key) == word <==> SpellsWord(key, word)
  {
  }

  /**
   * Keys match case-insensitively: a line `key=value` without another `=`
   * sets the API key exactly when `key` is a spelling `strings.ToLower` maps
   * to `api_key`, sets the secret exactly when it is one for `api_secret`,
   * and is a key error otherwise.
   */
  lemma ReadsKeyIff(key: string, value: string)
    requires '=' !in key && '=' !in value
    ensures ReadLine(key + "=" + value) == Assign(ApiKey, value) <==> SpellsWord(key, "api_key")
    ensures ReadLine(key + "=" + value) == Assign(ApiSecret, value) <==> SpellsWord(key, "api_secret")
    ensures ReadLine(key + "=" + value) == BadKey
        <==> !SpellsWord(key, "api_key") && !SpellsWord(key, "api_secret")
  {
    KeyValueLine(key, value);
    ToLowerMatches(key, "api_key");
    ToLowerMatches(key, "api_secret");
  }

  /**
   * Matching is by `strings.ToLower`, not by case folding: a long s (U+017F)
   * does not stand for `s`, so `api_ſecret` is a key error.
   */
  lemma LongSIsNotS(value: string)
    requires '=' !in value
    ensures ReadLine("api_\U{017F}ecret=" + value) == BadKey
  {
    var key := "api_\U{017F}ecret";
    assert "api_\U{017F}ecret=" + value == key + "=" + value;
    assert !SpellsLetter(key[4], 's');
    ReadsKeyIff(key, value);
  }

  /** The value of the last line assigning a field wins over every earlier one. */
  lemma LaterLineOverwrites(lines: seq<string>, key: string, value: string)
    requires ParseCredentialLines(lines).Success?
    requires '=' !in key && '=' !in value && ToLower(key) == "api_key"
    ensures ParseCredentialLines(lines + [key + "=" + value]).Success?
    ensures ParseCredentialLines(lines + [key + "=" + value]).value.apiKey == value
    ensures ParseCredentialLines(lines + [key + "=" + value]).value.apiSecret
         == ParseCredentialLines(lines).value.apiSecret
  {
    var line := key + "=" + value;
    var all := lines + [line];
    KeyValueLine(key, value);
    ParseCredentialLinesMeetsSpec(lines);
    ParseCredentialLinesMeetsSpec(all);
    assert all[..|all| - 1] == lines;
    assert forall i :: 0 <= i < |all| ==> LineOk(all[i]) by {
      forall i | 0 <= i < |all| ensures LineOk(all[i]) {
        if i < |lines| {
          assert all[i] == lines[i];
        }
      }
    }
  }

  /** A field no line assigns keeps its empty default. */
  lemma {:induction false} UnassignedFieldIsEmpty(lines: seq<string>, field: Field)
    requires forall i :: 0 <= i < |lines| ==> !(ReadLine(lines[i]).Assign? && ReadLine(lines[i]).field == field)
    ensures LastValue(lines, field) == ""
    decreases |lines|
  {
    if lines != [] {
      var init := lines[..|lines| - 1];
      assert forall i :: 0 <= i < |init| ==> init[i] == lines[i];
      UnassignedFieldIsEmpty(init, field);
    }
  }

  /** A file that never names a key is accepted with that credential empty, not rejected. */
  lemma MissingKeyIsEmpty(lines: seq<string>)
    requires forall i :: 0 <= i < |lines| ==> LineOk(lines[i]) && ReadLine(lines[i]).field == ApiSecret
    ensures ParseCredentialLines(lines).Success?
    ensures ParseCredentialLines(lines).value.apiKey == ""
  {
    ParseCredentialLinesMeetsSpec(lines);
    UnassignedFieldIsEmpty(lines, ApiKey);
  }
}
