/**
 * src/PostCSV.js: the upload backend that POSTs the rows as CSV text to the
 * URL held in field 1 of the stored key, moving inline `user:password@`
 * credentials into a Basic authorization header (section 2 of RFC 7617).
 */
module PostCSV {
  import opened Wrappers
  import opened JsText
  import opened LocalStorage
  import CloudStore
  import Base64

  // ---------------------------------------------------------------------------
  // CSV text

  /** `f.replace(/"/g, '""')`: every double quote doubled. */
  function Escape(s: string): (t: string)
    ensures |t| >= |s|
  {
    if s == [] then [] else (if s[0] == '"' then "\"\"" else [s[0]]) + Escape(s[1..])
  }

  /**
   * One field as the `map` callback formats it. The guard `/[",\n]/` is a
   * regular-expression literal, an object and therefore always truthy, so every
   * string is quoted whatever it contains; numbers and booleans go through
   * `join`'s string conversion unquoted.
   */
  function FormatField(v: Value): (t: string)
  {
    match v
    case Str(s) => "\"" + Escape(s) + "\""
    case _ => ToText(v)
  }

  function FormatFields(row: seq<Value>): (fs: seq<string>)
    ensures |fs| == |row| && forall i :: 0 <= i < |row| ==> fs[i] == FormatField(row[i])
  {
    seq(|row|, i requires 0 <= i < |row| => FormatField(row[i]))
  }

  /** `r.map(...).join(",") + "\n"`: an empty row is an empty line. */
  function CsvLine(row: seq<Value>): string
  {
    (if row == [] then "" else Join(FormatFields(row), ',')) + "\n"
  }

  /** The text the loop accumulates in `csv`: one line per row, in row order. */
  function CsvText(rows: seq<seq<Value>>): string
  {
    Lines(CsvLine, rows)
  }

  /** The text of each item in turn, concatenated. */
  function Lines<T>(line: T -> string, xs: seq<T>): string
  {
    if xs == [] then "" else Lines(line, xs[..|xs| - 1]) + line(xs[|xs| - 1])
  }

  /** `let csv = ""; for (const r of rows) csv += ...`. */
  method BuildCsv(rows: seq<seq<Value>>) returns (csv: string)
    ensures csv == CsvText(rows)
  {
    csv := "";
    var i := 0;
    while i < |rows|
      invariant 0 <= i <= |rows|
      invariant csv == CsvText(rows[..i])
    {
      assert rows[..i + 1][..i] == rows[..i];
      csv := csv + CsvLine(rows[i]);
      i := i + 1;
    }
    assert rows[..i] == rows;
  }

  // ---------------------------------------------------------------------------
  // Reading CSV back (section 2 of RFC 4180, with LF line breaks)

  /** After an opening quote: the field's value and the text after the closing quote. */
  function ParseQuoted(t: string): (r: Option<(string, string)>)
    ensures r.Some? ==> |r.value.1| < |t|
  {
    if t == [] then None
    else if t[0] == '"' then
      if |t| >= 2 && t[1] == '"' then
        match ParseQuoted(t[2..])
        case None => None
        case Some((v, rest)) => Some(("\"" + v, rest))
      else Some(("", t[1..]))
    else
      match ParseQuoted(t[1..])
      case None => None
      case Some((v, rest)) => Some(([t[0]] + v, rest))
  }

  function ParseUnquoted(t: string): (r: (string, string))
    ensures |r.1| <= |t|
  {
    if t == [] || t[0] == ',' || t[0] == '\n' then ("", t)
    else
      var (v, rest) := ParseUnquoted(t[1..]);
      ([t[0]] + v, rest)
  }

  function ParseField(t: string): (r: Option<(string, string)>)
    ensures r.Some? ==> |r.value.1| <= |t|
  {
    if t != [] && t[0] == '"' then ParseQuoted(t[1..]) else Some(ParseUnquoted(t))
  }

  /** One record: its fields and the text after its line break. */
  function ParseRecord(t: string): (r: Option<(seq<string>, string)>)
    ensures r.Some? && t != [] ==> |r.value.1| < |t|
    decreases |t|
  {
    match ParseField(t)
    case None => None
    case Some((v, rest)) =>
      if rest == [] then Some(([v], []))
      else if rest[0] == '\n' then Some(([v], rest[1..]))
      else if rest[0] == ',' then
        match ParseRecord(rest[1..])
        case None => None
        case Some((vs, after)) => Some(([v] + vs, after))
      else None
  }

  function ParseCsv(t: string): Option<seq<seq<string>>>
    decreases |t|
  {
    if t == [] then Some([])
    else
      match ParseRecord(t)
      case None => None
      case Some((fields, rest)) =>
        match ParseCsv(rest)
        case None => None
        case Some(records) => Some([fields] + records)
  }

  /** The fields a reader recovers from one written row: the text of each value. */
  function RowText(row: seq<Value>): (fs: seq<string>)
    ensures |fs| >= 1
  {
    if row == [] then [""] else seq(|row|, i requires 0 <= i < |row| => ToText(row[i]))
  }

  predicate PlainText(u: string)
  {
    forall i :: 0 <= i < |u| ==> u[i] != ',' && u[i] != '\n' && u[i] != '"'
  }

  predicate EndsField(rest: string)
  {
    rest != [] && (rest[0] == ',' || rest[0] == '\n')
  }

  /** Unescaping a quoted field returns the original string. */
  lemma {:induction false} ParseQuotedEscape(s: string, rest: string)
    requires rest == [] || rest[0] != '"'
    ensures ParseQuoted(Escape(s) + "\"" + rest) == Some((s, rest))
  {
    var t := Escape(s) + "\"" + rest;
    if s == [] {
      assert t == "\"" + rest;
    } else if s[0] == '"' {
      assert t[2..] == Escape(s[1..]) + "\"" + rest;
      ParseQuotedEscape(s[1..], rest);
      assert "\"" + s[1..] == s;
    } else {
      assert t[1..] == Escape(s[1..]) + "\"" + rest;
      ParseQuotedEscape(s[1..], rest);
      assert [s[0]] + s[1..] == s;
    }
  }

  lemma {:induction false} ParseUnquotedPlain(u: string, rest: string)
    requires PlainText(u) && (rest == [] || EndsField(rest))
    ensures ParseUnquoted(u + rest) == (u, rest)
  {
    if u == [] {
      assert u + rest == rest;
    } else {
      assert (u + rest)[1..] == u[1..] + rest;
      ParseUnquotedPlain(u[1..], rest);
      assert [u[0]] + u[1..] == u;
    }
  }

  lemma NumberAndBooleanTextIsPlain(v: Value)
    requires !v.Str?
    ensures PlainText(ToText(v)) && ToText(v) != [] && ToText(v)[0] != '"'
  {
    if v.Num? {
      var d := NatToString(if v.n < 0 then -v.n else v.n);
      NatToStringDigits(if v.n < 0 then -v.n else v.n);
      assert forall i :: 0 <= i < |d| ==> IsDigit(d[i]);
      assert ToText(v) == (if v.n < 0 then "-" + d else d);
    }
  }

  lemma ParseFieldQuoted(s: string, rest: string)
    requires EndsField(rest)
    ensures ParseField(FormatField(Str(s)) + rest) == Some((s, rest))
  {
    var t := FormatField(Str(s)) + rest;
    assert t == "\"" + (Escape(s) + "\"" + rest);
    assert t[1..] == Escape(s) + "\"" + rest;
    ParseQuotedEscape(s, rest);
  }

  lemma ParseFieldFormat(v: Value, rest: string)
    requires EndsField(rest)
    ensures ParseField(FormatField(v) + rest) == Some((ToText(v), rest))
  {
    if v.Str? {
      ParseFieldQuoted(v.s, rest);
    } else {
      NumberAndBooleanTextIsPlain(v);
      assert FormatField(v) == ToText(v);
      ParseUnquotedPlain(ToText(v), rest);
    }
  }

  lemma {:induction false} ParseRecordFields(row: seq<Value>, rest: string)
    requires row != []
    ensures ParseRecord(Join(FormatFields(row), ',') + "\n" + rest) == Some((RowText(row), rest))
  {
    if |row| == 1 {
      LastField(row, rest);
    } else {
      var tail := Join(FormatFields(row[1..]), ',') + "\n" + rest;
      ParseRecordFields(row[1..], rest);
      NextField(row, rest, tail);
      assert RowText(row) == [ToText(row[0])] + RowText(row[1..]);
    }
  }

  lemma LastField(row: seq<Value>, rest: string)
    requires |row| == 1
    ensures ParseRecord(Join(FormatFields(row), ',') + "\n" + rest) == Some((RowText(row), rest))
  {
    var t := Join(FormatFields(row), ',') + "\n" + rest;
    assert t == FormatField(row[0]) + ("\n" + rest);
    ParseFieldFormat(row[0], "\n" + rest);
    assert ("\n" + rest)[1..] == rest;
    assert RowText(row) == [ToText(row[0])];
  }

  lemma NextField(row: seq<Value>, rest: string, tail: string)
    requires |row| > 1 && tail == Join(FormatFields(row[1..]), ',') + "\n" + rest
    ensures ParseRecord(Join(FormatFields(row), ',') + "\n" + rest)
         == match ParseRecord(tail)
            case None => None
            case Some((vs, after)) => Some(([ToText(row[0])] + vs, after))
  {
    var fs := FormatFields(row);
    var t := Join(fs, ',') + "\n" + rest;
    assert fs[1..] == FormatFields(row[1..]);
    assert t == FormatField(row[0]) + ("," + tail);
    ParseFieldFormat(row[0], "," + tail);
    assert ("," + tail)[1..] == tail;
  }

  lemma ParseRecordLine(row: seq<Value>, rest: string)
    ensures ParseRecord(CsvLine(row) + rest) == Some((RowText(row), rest))
  {
    if row == [] {
      assert CsvLine(row) + rest == "\n" + rest;
      assert ParseUnquoted("\n" + rest) == ("", "\n" + rest);
    } else {
      assert CsvLine(row) + rest == Join(FormatFields(row), ',') + "\n" + rest;
      ParseRecordFields(row, rest);
    }
  }

  /** The CSV text as a sequence of lines, front first. */
  lemma CsvTextCons(rows: seq<seq<Value>>)
    requires rows != []
    ensures CsvText(rows) == CsvLine(rows[0]) + CsvText(rows[1..])
  {
    LinesCons(CsvLine, rows);
  }

  lemma {:induction false} LinesCons<T>(line: T -> string, xs: seq<T>)
    requires xs != []
    ensures Lines(line, xs) == line(xs[0]) + Lines(line, xs[1..])
  {
    if |xs| > 1 {
      var init, tail, z := xs[..|xs| - 1], xs[1..], xs[|xs| - 1];
      var middle := init[1..];
      assert middle == tail[..|tail| - 1] && tail[|tail| - 1] == z && init[0] == xs[0];
      var a, b, c := line(xs[0]), Lines(line, middle), line(z);
      assert Lines(line, tail) == b + c;
      assert Lines(line, init) == a + b by { LinesCons(line, init); }
      assert Lines(line, xs) == (a + b) + c;
      assert (a + b) + c == a + (b + c);
    } else {
      assert xs[..0] == [] && xs[1..] == [];
    }
  }

  /**
   * Reading the uploaded text back with RFC 4180 rules yields one record per
   * row, in order, each holding the text of that row's values: so the text has
   * exactly `|rows|` line breaks outside quotes, and every string survives its
   * quoting.
   */
  lemma {:induction false} ParseCsvText(rows: seq<seq<Value>>)
    ensures ParseCsv(CsvText(rows)) == Some(seq(|rows|, i requires 0 <= i < |rows| => RowText(rows[i])))
  {
    if rows != [] {
      CsvTextCons(rows);
      assert |CsvLine(rows[0])| > 0;
      ParseRecordLine(rows[0], CsvText(rows[1..]));
      ParseCsvText(rows[1..]);
      var wanted := seq(|rows|, i requires 0 <= i < |rows| => RowText(rows[i]));
      assert wanted == [RowText(rows[0])] + seq(|rows[1..]|, i requires 0 <= i < |rows[1..]| => RowText(rows[1..][i]));
    } else {
      assert seq(|rows|, i requires 0 <= i < |rows| => RowText(rows[i])) == [];
    }
  }

  /** Strings are quoted even when they hold no comma, quote or line break. */
  lemma StringsAlwaysQuoted(s: string)
    ensures FormatField(Str(s))[0] == '"' && FormatField(Str(s))[|FormatField(Str(s))| - 1] == '"'
    ensures '"' !in s ==> FormatField(Str(s)) == "\"" + s + "\""
  {
    if '"' !in s {
      EscapePlain(s);
    }
  }

  lemma {:induction false} EscapePlain(s: string)
    requires '"' !in s
    ensures Escape(s) == s
  {
    if s != [] {
      EscapePlain(s[1..]);
      assert [s[0]] + s[1..] == s;
    }
  }

  // ---------------------------------------------------------------------------
  // Inline credentials: /([^:\/]+:[^:\/]*)@/.exec(url)

  /** A character of the class `[^:/]`. */
  predicate Plain(c: char) { c != ':' && c != '/' }

  /** Length of the longest run of `[^:/]` characters starting at `p` (greedy `+` and `*`). */
  function RunLength(s: string, p: nat): (n: nat)
    requires p <= |s|
    ensures p + n <= |s|
    decreases |s| - p
  {
    if p == |s| || !Plain(s[p]) then 0 else 1 + RunLength(s, p + 1)
  }

  /** The run at `p` is `[^:/]` throughout, and ends at the end of `s` or at a `:` or `/`. */
  lemma {:induction false} RunLengthFacts(s: string, p: nat)
    requires p <= |s|
    ensures forall i :: p <= i < p + RunLength(s, p) ==> Plain(s[i])
    ensures p + RunLength(s, p) == |s| || !Plain(s[p + RunLength(s, p)])
    decreases |s| - p
  {
    if !(p == |s| || !Plain(s[p])) {
      RunLengthFacts(s, p + 1);
    }
  }

  /** The last `@` in `s[lo..hi]`: where `[^:/]*@` lands after backtracking from the whole run. */
  function LastAt(s: string, lo: nat, hi: nat): (r: Option<nat>)
    requires lo <= hi <= |s|
    ensures r.Some? ==> lo <= r.value < hi && s[r.value] == '@'
    ensures r.Some? ==> forall j :: r.value < j < hi ==> s[j] != '@'
    ensures r.None? ==> forall j :: lo <= j < hi ==> s[j] != '@'
    decreases hi - lo
  {
    if hi == lo then None else if s[hi - 1] == '@' then Some(hi - 1) else LastAt(s, lo, hi - 1)
  }

  /**
   * Whether the pattern matches at `p`, and the index of the `@` ending the
   * match: `[^:/]+` must take the whole run at `p` for `:` to follow.
   */
  function MatchAt(s: string, p: nat): Option<nat>
    requires p <= |s|
  {
    var a := RunLength(s, p);
    if a == 0 || p + a == |s| || s[p + a] != ':' then None
    else LastAt(s, p + a + 1, p + a + 1 + RunLength(s, p + a + 1))
  }

  /** `exec` scanning from `p`: the leftmost match, as its start and the index of its `@`. */
  function Exec(s: string, p: nat): (r: Option<(nat, nat)>)
    requires p <= |s|
    ensures r.Some? ==> p <= r.value.0 <= |s| && MatchAt(s, r.value.0) == Some(r.value.1)
    ensures r.Some? ==> forall i :: p <= i < r.value.0 ==> MatchAt(s, i).None?
    ensures r.None? ==> forall i :: p <= i <= |s| ==> MatchAt(s, i).None?
    decreases |s| - p
  {
    if MatchAt(s, p).Some? then Some((p, MatchAt(s, p).value))
    else if p == |s| then None
    else Exec(s, p + 1)
  }

  /**
   * A match is `user:password@` with a non-empty user and neither part holding
   * `:` or `/`, and its `@` is the last one before the next `:` or `/`: the
   * greedy `[^:/]*` leaves no `@` in the run that follows.
   */
  lemma MatchShape(s: string, p: nat, e: nat)
    requires p <= |s| && MatchAt(s, p) == Some(e)
    ensures p < e < |s| && s[e] == '@'
    ensures exists k :: p < k < e && s[k] == ':'
                     && (forall j :: p <= j < k ==> Plain(s[j]))
                     && (forall j :: k < j <= e ==> Plain(s[j]))
    ensures forall j :: e < j < e + 1 + RunLength(s, e + 1) ==> s[j] != '@'
  {
    MatchUser(s, p, e);
    var a := RunLength(s, p);
    var q := p + a + 1;
    var b := RunLength(s, q);
    RunLengthFacts(s, p);
    RunLengthFacts(s, q);
    var k := p + a;
    assert p < k < e && s[k] == ':';
    assert forall j :: k < j <= e ==> Plain(s[j]);
    RunLengthExact(s, e + 1, q + b - (e + 1));
  }

  lemma {:induction false} RunLengthExact(s: string, i: nat, a: nat)
    requires i + a <= |s|
    requires forall k :: i <= k < i + a ==> Plain(s[k])
    requires i + a == |s| || !Plain(s[i + a])
    ensures RunLength(s, i) == a
    decreases a
  {
    if a > 0 {
      RunLengthExact(s, i + 1, a - 1);
    }
  }

  lemma {:induction false} RunLengthAtLeast(s: string, i: nat, m: nat)
    requires i + m <= |s|
    requires forall k :: i <= k < i + m ==> Plain(s[k])
    ensures RunLength(s, i) >= m
    decreases m
  {
    if m > 0 {
      RunLengthAtLeast(s, i + 1, m - 1);
    }
  }

  /** `pat` occurs in `s` at index `i`. */
  predicate OccursAt(s: string, pat: string, i: nat)
  {
    i + |pat| <= |s| && s[i..i + |pat|] == pat
  }

  /** An occurrence of a match's text is itself a match. */
  lemma OccurrenceMatches(s: string, p: nat, e: nat, i: nat)
    requires p <= |s| && MatchAt(s, p) == Some(e) && i <= |s|
    ensures p < e < |s|
    ensures OccursAt(s, s[p..e + 1], i) ==> MatchAt(s, i).Some?
  {
    MatchUser(s, p, e);
    var a := RunLength(s, p);
    var b := RunLength(s, p + a + 1);
    if OccursAt(s, s[p..e + 1], i) {
      CopiedMatch(s, p, e, i, a, b);
      MatchFrom(s, i, i + (e - p));
    }
  }

  /** What a match at `p` ending at `e` says of the run at `p`, its `:` and the password run's last `@`. */
  lemma MatchUser(s: string, p: nat, e: nat)
    requires p <= |s| && MatchAt(s, p) == Some(e)
    ensures var a := RunLength(s, p);
            && 0 < a && p + a < |s| && s[p + a] == ':'
            && LastAt(s, p + a + 1, p + a + 1 + RunLength(s, p + a + 1)) == Some(e)
  {
  }

  /** The text of a match, `a` characters of user, `:`, password and `@`, copied to `i` has the same parts. */
  lemma CopiedMatch(s: string, p: nat, e: nat, i: nat, a: nat, b: nat)
    requires p + a < |s| && a == RunLength(s, p) && 0 < a && s[p + a] == ':'
    requires b == RunLength(s, p + a + 1) && p + a + 1 <= e < p + a + 1 + b && s[e] == '@'
    requires i <= |s| && OccursAt(s, s[p..e + 1], i)
    ensures var k := i + (e - p);
            && RunLength(s, i) == a && i + a < |s| && s[i + a] == ':'
            && i + a + 1 <= k < i + a + 1 + RunLength(s, i + a + 1) && s[k] == '@'
  {
    var len := e + 1 - p;
    assert s[i..i + len] == s[p..p + len];
    UserCopied(s, p, i, len, a);
    PasswordCopied(s, p, i, len, a, b);
    CharCopied(s, p, i, len, len - 1);
  }

  /** The user run and its `:` reappear in a copy. */
  lemma UserCopied(s: string, p: nat, i: nat, len: nat, a: nat)
    requires i + len <= |s| && p + len <= |s| && a < len
    requires s[i..i + len] == s[p..p + len]
    requires a == RunLength(s, p) && s[p + a] == ':'
    ensures RunLength(s, i) == a && s[i + a] == ':'
  {
    RunLengthFacts(s, p);
    PlainCopied(s, p, i, len, 0, a);
    CharCopied(s, p, i, len, a);
    RunLengthExact(s, i, a);
  }

  /** The password run up to its `@` reappears in a copy, so the copy's run is at least as long. */
  lemma PasswordCopied(s: string, p: nat, i: nat, len: nat, a: nat, b: nat)
    requires i + len <= |s| && p + len <= |s| && a < len
    requires s[i..i + len] == s[p..p + len]
    requires b == RunLength(s, p + a + 1) && len <= a + 1 + b
    ensures RunLength(s, i + a + 1) >= len - a - 1
  {
    RunLengthFacts(s, p + a + 1);
    PlainCopied(s, p, i, len, a + 1, len - a - 1);
    RunLengthAtLeast(s, i + a + 1, len - a - 1);
  }

  /** One character of the text at `p` and of its copy at `i`. */
  lemma CharCopied(s: string, p: nat, i: nat, len: nat, k: nat)
    requires i + len <= |s| && p + len <= |s| && k < len
    requires s[i..i + len] == s[p..p + len]
    ensures s[i + k] == s[p + k]
  {
    assert s[i..i + len][k] == s[p..p + len][k];
  }

  /** A non-empty run at `i` followed by `:` and a run holding an `@` at `k` is a match at `i`. */
  lemma MatchFrom(s: string, i: nat, k: nat)
    requires i <= |s|
    requires var a := RunLength(s, i);
             && 0 < a && i + a < |s| && s[i + a] == ':'
             && i + a + 1 <= k < i + a + 1 + RunLength(s, i + a + 1) && s[k] == '@'
    ensures MatchAt(s, i).Some?
  {
    var q := i + RunLength(s, i) + 1;
    assert LastAt(s, q, q + RunLength(s, q)).Some?;
  }

  /** A run of `[^:/]` inside the text at `p` is one inside its copy at `i`. */
  lemma PlainCopied(s: string, p: nat, i: nat, len: nat, lo: nat, n: nat)
    requires i + len <= |s| && p + len <= |s| && lo + n <= len
    requires s[i..i + len] == s[p..p + len]
    requires forall j :: p + lo <= j < p + lo + n ==> Plain(s[j])
    ensures forall k :: i + lo <= k < i + lo + n ==> Plain(s[k])
  {
    forall k | i + lo <= k < i + lo + n ensures Plain(s[k]) {
      assert s[i..i + len][k - i] == s[p..p + len][k - i];
      assert s[k] == s[p + (k - i)];
    }
  }

  /** `s.indexOf(pat, from)` is `p` when `pat` occurs at `p` and nowhere between `from` and `p`. */
  lemma IndexOfFirst(s: string, pat: string, from: nat, p: nat)
    requires from <= p <= |s| && OccursAt(s, pat, p)
    requires forall i :: from <= i < p ==> !OccursAt(s, pat, i)
    ensures IndexOf(s, pat, from) == p
  {
  }

  /** `s.indexOf(pat)` starting at `from`: the first occurrence, or -1. */
  function IndexOf(s: string, pat: string, from: nat): (r: int)
    requires from <= |s|
    ensures r == -1 || (from <= r && OccursAt(s, pat, r))
    ensures forall i :: from <= i < (if r == -1 then |s| + 1 else r) ==> !OccursAt(s, pat, i)
    decreases |s| - from
  {
    if from + |pat| > |s| then -1
    else if s[from..from + |pat|] == pat then from
    else if from == |s| then -1
    else IndexOf(s, pat, from + 1)
  }

  /** `s.replace(pat, rep)` with a string pattern: only the first occurrence is replaced. */
  function ReplaceFirst(s: string, pat: string, rep: string): string
  {
    var i := IndexOf(s, pat, 0);
    if i < 0 then s else s[..i] + rep + s[i + |pat|..]
  }

  /** The URL actually requested and the user-info string `m[1]`, if the pattern matched. */
  function Credentials(url: string): (r: (string, Option<string>))
    ensures Exec(url, 0).None? ==> r == (url, None)
  {
    var m := Exec(url, 0);
    if m.None? then (url, None)
    else
      var p, e := m.value.0, m.value.1;
      (ReplaceFirst(url, url[p..e + 1], ""), Some(url[p..e]))
  }

  /** The first occurrence of the matched text `m[0]` is the match itself. */
  lemma FirstOccurrenceIsMatch(url: string, p: nat, e: nat)
    requires Exec(url, 0) == Some((p, e))
    ensures e < |url| && IndexOf(url, url[p..e + 1], 0) == p
  {
    OccurrenceMatches(url, p, e, p);
    NoEarlierOccurrence(url, url[p..e + 1], p, e);
    FirstAt(url, url[p..e + 1], p, e);
  }

  /** The text `s[p..e + 1]`, found nowhere before `p`, is first found at `p`. */
  lemma FirstAt(s: string, pat: string, p: nat, e: nat)
    requires p <= e < |s| && pat == s[p..e + 1]
    requires forall i :: 0 <= i < p ==> !OccursAt(s, pat, i)
    ensures IndexOf(s, pat, 0) == p
  {
    assert OccursAt(s, pat, p);
    IndexOfFirst(s, pat, 0, p);
  }

  /** The match being leftmost, its text `m0` occurs nowhere before it. */
  lemma NoEarlierOccurrence(url: string, m0: string, p: nat, e: nat)
    requires Exec(url, 0) == Some((p, e)) && e < |url| && m0 == url[p..e + 1]
    ensures forall i :: 0 <= i < p ==> !OccursAt(url, m0, i)
  {
    forall i | 0 <= i < p
      ensures !OccursAt(url, m0, i)
    {
      OccurrenceMatches(url, p, e, i);
    }
  }

  /**
   * `url.replace(m[0], "")` cuts exactly the leftmost match `user:password@`
   * out of the URL, and `m[1]` is that match without its `@`.
   */
  lemma CredentialsCutMatch(url: string, p: nat, e: nat)
    requires Exec(url, 0) == Some((p, e))
    ensures e < |url| && Credentials(url) == (url[..p] + url[e + 1..], Some(url[p..e]))
  {
    MatchCut(url, p, e);
    CredentialsOfMatch(url, p, e);
  }

  /** Replacing the first occurrence of the matched text cuts out the match. */
  lemma MatchCut(url: string, p: nat, e: nat)
    requires Exec(url, 0) == Some((p, e))
    ensures e < |url| && ReplaceFirst(url, url[p..e + 1], "") == url[..p] + url[e + 1..]
  {
    FirstOccurrenceIsMatch(url, p, e);
    ReplaceFirstCut(url, url[p..e + 1], p, e);
  }

  /** `s.replace(pat, "")` when the first occurrence of `pat`, the text `s[i..e + 1]`, is at `i`. */
  lemma ReplaceFirstCut(s: string, pat: string, i: nat, e: nat)
    requires i <= e < |s| && pat == s[i..e + 1] && IndexOf(s, pat, 0) == i
    ensures ReplaceFirst(s, pat, "") == s[..i] + s[e + 1..]
  {
    assert s[..i] + "" == s[..i];
    assert i + |pat| == e + 1;
  }

  /** What `Credentials` returns for a match at `p` ending at `e`. */
  lemma CredentialsOfMatch(url: string, p: nat, e: nat)
    requires Exec(url, 0) == Some((p, e)) && e < |url|
    ensures Credentials(url) == (ReplaceFirst(url, url[p..e + 1], ""), Some(url[p..e]))
  {
  }

  // ---------------------------------------------------------------------------
  // The request and the upload

  datatype Request = Request(url: string, headers: map<string, string>, body: string)

  /** The outcome `fetch` reports: a network failure or an HTTP status. */
  datatype Response = NetworkError(reason: string) | Status(code: int)

  const ContentType := "text/csv; charset=UTF-8"

  /** The `Headers` object after its `set` calls; `btoa` may throw on non-Latin-1 user info. */
  function RequestHeaders(userinfo: Option<string>): (r: Result<map<string, string>, string>)
    ensures userinfo.None? ==> r == Success(map["Content-type" := ContentType])
    ensures userinfo.Some? && Base64.IsLatin1(userinfo.value) ==>
      r == Success(map["Content-type" := ContentType,
                       "Authorization" := "Basic " + Base64.Encode(Base64.ToBytes(userinfo.value))])
    ensures userinfo.Some? && !Base64.IsLatin1(userinfo.value) ==> r.Failure?
  {
    var base := map["Content-type" := ContentType];
    match userinfo
    case None => Success(base)
    case Some(u) =>
      match Base64.Btoa(u)
      case Failure(e) => Failure(e)
      case Success(b) => Success(base["Authorization" := "Basic " + b])
  }

  /** `CloudStore.getKey(1)` as the string the regex and `fetch` see (`undefined` stringifies). */
  function UploadUrl(items: map<string, Stored>): string
  {
    match CloudStore.GetKey(items, Some(1))
    case Some(u) => u
    case None => "undefined"
  }

  /** The request `upload(rows)` sends for non-empty rows, or the exception thrown first. */
  function RequestFor(rows: seq<seq<Value>>, items: map<string, Stored>): (r: Result<Request, string>)
    ensures r.Success? ==> r.value.body == CsvText(rows)
  {
    var (url, userinfo) := Credentials(UploadUrl(items));
    match RequestHeaders(userinfo)
    case Failure(e) => Failure(e)
    case Success(h) => Success(Request(url, h, CsvText(rows)))
  }

  /**
   * What `upload` sends: without inline credentials the stored URL itself with
   * only the content type; with `user:password@` at `p..e` the URL with that
   * part cut out and a Basic authorization header of the user info, which
   * `btoa` accepts only when it is Latin-1. Either way the body parses back
   * into the rows' cell texts.
   */
  lemma RequestSent(rows: seq<seq<Value>>, items: map<string, Stored>)
    ensures var u := UploadUrl(items);
            match Exec(u, 0)
            case None =>
              RequestFor(rows, items) == Success(Request(u, map["Content-type" := ContentType], CsvText(rows)))
            case Some((p, e)) =>
              && e < |u|
              && (RequestFor(rows, items).Success? <==> Base64.IsLatin1(u[p..e]))
              && (RequestFor(rows, items).Success? ==>
                    RequestFor(rows, items).value ==
                      Request(u[..p] + u[e + 1..],
                              map["Content-type" := ContentType,
                                  "Authorization" := "Basic " + Base64.Encode(Base64.ToBytes(u[p..e]))],
                              CsvText(rows)))
    ensures RequestFor(rows, items).Success? ==>
      ParseCsv(RequestFor(rows, items).value.body) == Some(seq(|rows|, i requires 0 <= i < |rows| => RowText(rows[i])))
  {
    var u := UploadUrl(items);
    if Exec(u, 0).Some? {
      var (p, e) := Exec(u, 0).value;
      RequestOfMatch(rows, items, p, e);
    }
    ParseCsvText(rows);
  }

  /** The request when the URL carries credentials matched at `p..e`. */
  lemma RequestOfMatch(rows: seq<seq<Value>>, items: map<string, Stored>, p: nat, e: nat)
    requires Exec(UploadUrl(items), 0) == Some((p, e))
    ensures var u := UploadUrl(items);
            && p <= e < |u|
            && (RequestFor(rows, items).Success? <==> Base64.IsLatin1(u[p..e]))
            && (RequestFor(rows, items).Success? ==>
                  RequestFor(rows, items).value ==
                    Request(u[..p] + u[e + 1..],
                            map["Content-type" := ContentType,
                                "Authorization" := "Basic " + Base64.Encode(Base64.ToBytes(u[p..e]))],
                            CsvText(rows)))
  {
    CredentialsCutMatch(UploadUrl(items), p, e);
  }

  /** The settled promise: resolved on a 2xx status, rejected with the status or network error otherwise. */
  function ResponseOutcome(response: Response): (r: Result<(), string>)
    ensures r.Success? <==> response.Status? && 200 <= response.code <= 299
  {
    match response
    case NetworkError(reason) => Failure(reason)
    case Status(code) => if 200 <= code <= 299 then Success(()) else Failure(IntToString(code))
  }

  /**
   * `upload(rows)` with the network's answer as a parameter: the request it
   * sends (if any) and how its promise settles.
   */
  method Upload(rows: seq<seq<Value>>, items: map<string, Stored>, response: Response)
    returns (sent: Option<Request>, outcome: Result<(), string>)
    ensures rows == [] ==> sent == None && outcome == Failure("Nothing to upload")
    ensures rows != [] && RequestFor(rows, items).Failure? ==>
      sent == None && outcome == Failure(RequestFor(rows, items).error)
    ensures rows != [] && RequestFor(rows, items).Success? ==>
      sent == Some(RequestFor(rows, items).value) && outcome == ResponseOutcome(response)
  {
    if |rows| == 0 {
      return None, Failure("Nothing to upload");
    }
    var csv := BuildCsv(rows);
    var (url, userinfo) := Credentials(UploadUrl(items));
    var headers := RequestHeaders(userinfo);
    if headers.Failure? {
      return None, Failure(headers.error);
    }
    sent := Some(Request(url, headers.value, csv));
    outcome := ResponseOutcome(response);
  }

  /** `canUpload()`: truthy exactly when field 1 (the URL) of the stored key is non-empty. */
  function CanUpload(items: map<string, Stored>): (r: bool)
    ensures r <==> var key := CloudStore.StoredKey(items);
                   && key.Some? && key.value != ""
                   && |Split(key.value, '|')| > 1 && Split(key.value, '|')[1] != ""
  {
    var url := CloudStore.GetKey(items, Some(1));
    url.Some? && url.value != ""
  }
}
