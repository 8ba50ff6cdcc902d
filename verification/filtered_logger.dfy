/** `filter_datum` (0x00-personal_data/filtered_logger.py): for each field, in order, every value
    written as `<field>=<value><separator>` has its value replaced by the redaction. The regular
    expression the source builds is modelled by an explicit scanner with the semantics of `re.sub`:
    leftmost matches, tried from left to right, a greedy value run that gives back characters until
    the separator follows, a look-behind read in the original message, and scanning resumed after
    each match. */
module FilteredLogger {
  import opened Common

  /** `\w` restricted to ASCII. */
  predicate IsWordChar(c: char)
  {
    'a' <= c <= 'z' || 'A' <= c <= 'Z' || '0' <= c <= '9' || c == '_'
  }

  /** The value character class ``[\w!%'/:<=>@`"]``. */
  predicate IsValueChar(c: char)
  {
    IsWordChar(c) || c in "!%'/:<=>@`\""
  }

  /** The look-behind `(?<=<field>=)`: position `i` directly follows `<field>=`. */
  predicate FollowsPrefix(s: string, field: string, i: int)
  {
    |field| + 1 <= i <= |s| && s[i - |field| - 1..i] == field + "="
  }

  predicate SepAt(s: string, sep: string, j: int)
  {
    0 <= j && j + |sep| <= |s| && s[j..j + |sep|] == sep
  }

  /** The pattern matches at `i` with a value of `k` characters: the look-behind holds, the `k`
      characters are all in the value class, and the separator follows them. */
  predicate IsMatch(s: string, field: string, sep: string, i: int, k: int)
  {
    && FollowsPrefix(s, field, i)
    && 0 <= k && i + k <= |s|
    && (forall j :: i <= j < i + k ==> IsValueChar(s[j]))
    && SepAt(s, sep, i + k)
  }

  /** The greedy run of value characters starting at `i`. */
  function RunLength(s: string, i: nat): (n: nat)
    requires i <= |s|
    decreases |s| - i
    ensures i + n <= |s|
  {
    if i == |s| || !IsValueChar(s[i]) then 0 else 1 + RunLength(s, i + 1)
  }

  /** The run is as long as it can be: all of it is in the class, and the character after it is not. */
  lemma {:induction false} RunLengthIsMaximal(s: string, i: nat)
    requires i <= |s|
    decreases |s| - i
    ensures var n := RunLength(s, i);
            && (forall j :: i <= j < i + n ==> IsValueChar(s[j]))
            && (i + n == |s| || !IsValueChar(s[i + n]))
  {
    if i < |s| && IsValueChar(s[i]) {
      RunLengthIsMaximal(s, i + 1);
    }
  }

  /** Backtracking over a run that ends at `hi`: the last position in `lo..hi` that the separator follows. */
  function LastSep(s: string, sep: string, lo: nat, hi: nat): (r: Option<nat>)
    requires lo <= hi <= |s|
    decreases hi - lo
    ensures r.Some? ==> lo <= r.value <= hi && r.value + |sep| <= |s|
  {
    if SepAt(s, sep, hi) then Some(hi)
    else if hi == lo then None
    else LastSep(s, sep, lo, hi - 1)
  }

  /** The position found is followed by the separator and no later one in range is. */
  lemma {:induction false} LastSepIsLast(s: string, sep: string, lo: nat, hi: nat)
    requires lo <= hi <= |s|
    decreases hi - lo
    ensures var r := LastSep(s, sep, lo, hi);
            && (r.Some? ==> SepAt(s, sep, r.value) && forall j :: r.value < j <= hi ==> !SepAt(s, sep, j))
            && (r.None? ==> forall j :: lo <= j <= hi ==> !SepAt(s, sep, j))
  {
    if !SepAt(s, sep, hi) && hi > lo {
      LastSepIsLast(s, sep, lo, hi - 1);
    }
  }

  /** The match the greedy pattern makes at `i`, given as the length of its value: the longest
      value that forms a match there, or none when no value does. */
  function MatchAt(s: string, field: string, sep: string, i: nat): (r: Option<nat>)
    requires i <= |s|
    ensures r.Some? ==> i + r.value + |sep| <= |s|
  {
    if !FollowsPrefix(s, field, i) then None
    else
      var n := RunLength(s, i);
      var last := LastSep(s, sep, i, i + n);
      if last.None? then None else Some(last.value - i)
  }

  /** The match at `i` is a match, the longest value that forms one there, and there is none
      exactly when no value does. */
  lemma MatchAtIsLongest(s: string, field: string, sep: string, i: nat)
    requires i <= |s|
    ensures var r := MatchAt(s, field, sep, i);
            r.Some? ==> IsMatch(s, field, sep, i, r.value) && forall k :: IsMatch(s, field, sep, i, k) ==> k <= r.value
    ensures MatchAt(s, field, sep, i).None? <==> forall k :: !IsMatch(s, field, sep, i, k)
  {
    if FollowsPrefix(s, field, i) {
      var last := LastSep(s, sep, i, i + RunLength(s, i));
      forall k | IsMatch(s, field, sep, i, k)
        ensures last.Some? && i + k <= last.value
      {
        MatchWithinRun(s, field, sep, i, k);
      }
      if last.Some? {
        FoundIsMatch(s, field, sep, i);
      }
    }
  }

  /** Any match at `i` ends within the greedy run, at or before the last separator in it. */
  lemma MatchWithinRun(s: string, field: string, sep: string, i: nat, k: int)
    requires i <= |s| && IsMatch(s, field, sep, i, k)
    ensures var last := LastSep(s, sep, i, i + RunLength(s, i));
            last.Some? && i + k <= last.value
  {
    RunCoversClass(s, i, k);
    LastSepIsLast(s, sep, i, i + RunLength(s, i));
  }

  /** The last separator in the greedy run ends a match. */
  lemma FoundIsMatch(s: string, field: string, sep: string, i: nat)
    requires i <= |s| && FollowsPrefix(s, field, i)
    requires LastSep(s, sep, i, i + RunLength(s, i)).Some?
    ensures IsMatch(s, field, sep, i, LastSep(s, sep, i, i + RunLength(s, i)).value - i)
  {
    RunLengthIsMaximal(s, i);
    LastSepIsLast(s, sep, i, i + RunLength(s, i));
  }

  /** Every run of class characters from `i` lies within the greedy run. */
  lemma {:induction false} RunCoversClass(s: string, i: nat, k: nat)
    requires i + k <= |s|
    requires forall j :: i <= j < i + k ==> IsValueChar(s[j])
    ensures k <= RunLength(s, i)
    decreases k
  {
    if k > 0 {
      RunCoversClass(s, i + 1, k - 1);
    }
  }

  /** `re.sub` from position `i` on: a match is replaced by the redaction followed by the
      separator and scanning resumes after it; elsewhere one character is copied. An empty match
      (possible only with an empty separator) is replaced and the next character copied. */
  function Scan(s: string, field: string, redaction: string, sep: string, i: nat): string
    requires i <= |s|
    decreases |s| - i
  {
    var m := MatchAt(s, field, sep, i);
    if m.Some? && m.value + |sep| > 0 then
      redaction + sep + Scan(s, field, redaction, sep, i + m.value + |sep|)
    else
      var rest := if i < |s| then [s[i]] + Scan(s, field, redaction, sep, i + 1) else "";
      if m.Some? then redaction + rest else rest
  }

  /** One pass of the loop body: `re.sub(pattern, redaction + separator, message)` for one field. */
  function RedactField(message: string, field: string, redaction: string, sep: string): string
  {
    Scan(message, field, redaction, sep, 0)
  }

  /** The loop over `fields`, each pass applied to the previous pass's output. */
  function FoldFields(fields: seq<string>, redaction: string, message: string, sep: string): string
  {
    if fields == [] then message
    else RedactField(FoldFields(fields[..|fields| - 1], redaction, message, sep), fields[|fields| - 1], redaction, sep)
  }

  /** `filter_datum`. */
  method FilterDatum(fields: seq<string>, redaction: string, message: string, separator: string) returns (r: string)
    ensures r == FoldFields(fields, redaction, message, separator)
    ensures fields == [] ==> r == message
  {
    r := message;
    for idx := 0 to |fields|
      invariant r == FoldFields(fields[..idx], redaction, message, separator)
    {
      assert fields[..idx + 1][..idx] == fields[..idx];
      r := RedactField(r, fields[idx], redaction, separator);
    }
    assert fields[..|fields|] == fields;
  }

  /** Running the fields of `a` and then those of `b` is running `a + b`. */
  lemma {:induction false} FoldFieldsAppend(a: seq<string>, b: seq<string>, redaction: string, message: string, sep: string)
    ensures FoldFields(a + b, redaction, message, sep) == FoldFields(b, redaction, FoldFields(a, redaction, message, sep), sep)
  {
    if b == [] {
      assert a + b == a;
    } else {
      var b' := b[..|b| - 1];
      assert (a + b)[..|a + b| - 1] == a + b';
      FoldFieldsAppend(a, b', redaction, message, sep);
    }
  }

  /** Where nothing matches, one character is copied. */
  lemma CopiesOne(s: string, field: string, redaction: string, sep: string, i: nat)
    requires i < |s| && MatchAt(s, field, sep, i).None?
    ensures Scan(s, field, redaction, sep, i) == [s[i]] + Scan(s, field, redaction, sep, i + 1)
  {
  }

  lemma ConsSlice(s: string, i: nat, j: nat, t: string)
    requires i < j <= |s|
    ensures [s[i]] + (s[i + 1..j] + t) == s[i..j] + t
  {
    assert s[i..j] == [s[i]] + s[i + 1..j];
  }

  /** Text before the first match is copied unchanged. */
  lemma {:induction false} CopiedUntilMatch(s: string, field: string, redaction: string, sep: string, i: nat, j: nat)
    requires i <= j <= |s|
    requires forall p :: i <= p < j ==> MatchAt(s, field, sep, p).None?
    ensures Scan(s, field, redaction, sep, i) == s[i..j] + Scan(s, field, redaction, sep, j)
    decreases j - i
  {
    if i < j {
      CopiesOne(s, field, redaction, sep, i);
      CopiedUntilMatch(s, field, redaction, sep, i + 1, j);
      ConsSlice(s, i, j, Scan(s, field, redaction, sep, j));
    }
  }

  /** A message in which the pattern matches nowhere comes back unchanged. */
  lemma NoMatchUnchanged(s: string, field: string, redaction: string, sep: string)
    requires forall p, k :: !IsMatch(s, field, sep, p, k)
    ensures RedactField(s, field, redaction, sep) == s
  {
    forall p | 0 <= p <= |s| ensures MatchAt(s, field, sep, p).None? {
      MatchAtIsLongest(s, field, sep, p);
    }
    CopiedUntilMatch(s, field, redaction, sep, 0, |s|);
    assert s[0..|s|] == s;
  }

  /** In `pre + field + "=" + rest`, with no `=` in `pre` or `field`, the look-behind holds
      right after that `=` and at no position before it. */
  lemma PrefixPositions(pre: string, field: string, rest: string, p: nat)
    requires '=' !in pre && '=' !in field
    requires p < |pre| + |field| + 1 <= |pre + field + "=" + rest|
    ensures !FollowsPrefix(pre + field + "=" + rest, field, p)
    ensures FollowsPrefix(pre + field + "=" + rest, field, |pre| + |field| + 1)
  {
    var s := pre + field + "=" + rest;
    var i := |pre| + |field| + 1;
    if p > 0 {
      var pf := pre + field;
      assert s[p - 1] == pf[p - 1];
      assert s[p - 1] != '=';
      if p >= |field| + 1 {
        assert s[p - |field| - 1..p][|field|] == s[p - 1];
      }
    }
    assert s[i - |field| - 1..i] == field + "=";
  }

  /** A run of `m` class characters followed by one outside the class has length `m`. */
  lemma {:induction false} RunOfLength(s: string, i: nat, m: nat)
    requires i + m < |s| && !IsValueChar(s[i + m])
    requires forall j :: i <= j < i + m ==> IsValueChar(s[j])
    ensures RunLength(s, i) == m
    decreases m
  {
    if m > 0 {
      assert IsValueChar(s[i]);
      RunOfLength(s, i + 1, m - 1);
    } else {
      assert !IsValueChar(s[i]);
    }
  }

  /** After `<field>=`, a run of class characters ending in a separator character outside the
      class is matched whole. */
  lemma MatchesWholeValue(pre: string, field: string, value: string, c: char)
    requires '=' !in pre && '=' !in field
    requires forall j :: 0 <= j < |value| ==> IsValueChar(value[j])
    requires !IsValueChar(c)
    ensures MatchAt(pre + field + "=" + value + [c], field, [c], |pre| + |field| + 1) == Some(|value|)
  {
    var s := pre + field + "=" + value + [c];
    var i := |pre| + |field| + 1;
    assert s == pre + field + "=" + (value + [c]);
    PrefixPositions(pre, field, value + [c], 0);
    assert forall j :: i <= j < i + |value| ==> s[j] == value[j - i];
    assert s[i + |value|] == c;
    MatchOfRun(s, field, i, |value|);
  }

  /** After the look-behind, `m` class characters followed by a one-character separator outside
      the class are matched whole. */
  lemma MatchOfRun(s: string, field: string, i: nat, m: nat)
    requires FollowsPrefix(s, field, i) && i + m < |s| && !IsValueChar(s[i + m])
    requires forall j :: i <= j < i + m ==> IsValueChar(s[j])
    ensures MatchAt(s, field, [s[i + m]], i) == Some(m)
  {
    RunOfLength(s, i, m);
    assert s[i + m..i + m + 1] == [s[i + m]];
  }

  /** At a non-empty match the value and the separator are replaced and scanning resumes after them. */
  lemma ReplacedAt(s: string, field: string, redaction: string, sep: string, i: nat, k: nat)
    requires i <= |s| && MatchAt(s, field, sep, i) == Some(k) && |sep| > 0
    ensures i + k + |sep| <= |s|
    ensures Scan(s, field, redaction, sep, i) == redaction + sep + Scan(s, field, redaction, sep, i + k + |sep|)
  {
  }

  /** A message ending in a separator character that is not `=` has no match at its very end. */
  lemma NothingAtEnd(s: string, field: string, redaction: string, c: char)
    requires |s| > 0 && s[|s| - 1] == c && c != '='
    ensures Scan(s, field, redaction, [c], |s|) == ""
  {
    if |s| >= |field| + 1 {
      assert s[|s| - |field| - 1..|s|][|field|] == c;
    }
  }

  /** A value of class characters written as `<field>=<value><c>`, with a separator character `c`
      outside the class, is replaced by the redaction; the text before it, the `<field>=` prefix
      and the separator are kept. The field is not bounded on the left: `pre` may end in letters. */
  lemma RedactsValue(pre: string, field: string, value: string, c: char, redaction: string)
    requires '=' !in pre && '=' !in field
    requires forall j :: 0 <= j < |value| ==> IsValueChar(value[j])
    requires !IsValueChar(c)
    ensures RedactField(pre + field + "=" + value + [c], field, redaction, [c]) == pre + field + "=" + redaction + [c]
  {
    var s := pre + field + "=" + value + [c];
    var i := |pre| + |field| + 1;
    assert s == pre + field + "=" + (value + [c]);
    forall p | 0 <= p < i ensures MatchAt(s, field, [c], p).None? {
      PrefixPositions(pre, field, value + [c], p);
    }
    CopiedUntilMatch(s, field, redaction, [c], 0, i);
    assert s[0..i] == pre + field + "=";
    MatchesWholeValue(pre, field, value, c);
    ReplacedAt(s, field, redaction, [c], i, |value|);
    assert IsValueChar('=');
    NothingAtEnd(s, field, redaction, c);
  }

  /** A value holding a character outside the class (such as `.`, `-` or a space) before the
      separator is not matched, and the message is kept as it is. */
  lemma KeepsUnmatchedValue(pre: string, field: string, value: string, c: char, redaction: string, bad: nat)
    requires '=' !in pre && '=' !in field && '=' !in value && c != '=' && c !in value
    requires bad < |value| && !IsValueChar(value[bad])
    ensures RedactField(pre + field + "=" + value + [c], field, redaction, [c]) == pre + field + "=" + value + [c]
  {
    var s := pre + field + "=" + value + [c];
    var i := |pre| + |field| + 1;
    var rest := value + [c];
    assert s == pre + field + "=" + rest;
    forall p, k | 0 <= p <= |s| ensures !IsMatch(s, field, [c], p, k) {
      if p < i {
        PrefixPositions(pre, field, rest, p);
      } else if p > i {
        assert s[p - 1] == rest[p - 1 - i];
        if p >= |field| + 1 {
          assert s[p - |field| - 1..p][|field|] == s[p - 1];
        }
      } else if 0 <= k && i + k < |s| {
        assert s[i + k] == rest[k];
        assert s[i + bad] == value[bad];
        if i + k + 1 <= |s| {
          assert s[i + k..i + k + 1][0] == s[i + k];
        }
      }
    }
    NoMatchUnchanged(s, field, redaction, [c]);
  }

  /** Field `name` redacts the value of `username`; `email=a.b;` is kept because of the `.`. */
  lemma Examples()
    ensures RedactField("username=bob;", "name", "***", ";") == "username=***;"
    ensures RedactField("email=a.b;", "email", "***", ";") == "email=a.b;"
  {
    RedactsValue("user", "name", "bob", ';', "***");
    assert "user" + "name" + "=" + "bob" + [';'] == "username=bob;";
    assert "user" + "name" + "=" + "***" + [';'] == "username=***;";
    KeepsUnmatchedValue("", "email", "a.b", ';', "***", 1);
    assert "" + "email" + "=" + "a.b" + [';'] == "email=a.b;";
  }
}
