/** The attribute-filter grammar: a hand-written index scanner, the exact set of texts it accepts and
    what each means, why each other text is refused, and a printer it inverts.
    Text is a sequence of Unicode characters; every character the scanner compares with is ASCII, so
    scanning the UTF-8 bytes, as the program does, finds the same places. */
module Filters {

  type Clause = (string, string)

  datatype ParseError = MissingEquals | UnquotedValue(key: string) | UnterminatedValue(key: string) | EmptyKey

  datatype ParseResult = Parsed(clauses: seq<Clause>) | Malformed(error: ParseError)

  const PREFIX: string := "attributes."

  predicate IsAsciiSpace(c: char) {
    c == ' ' || c == '\t' || c == '\n' || c == '\r' || c as int == 0x0C
  }

  /** The Unicode White_Space property. */
  predicate IsWhite(c: char) {
    var n := c as int;
    9 <= n <= 13 || n == 0x20 || n == 0x85 || n == 0xA0 || n == 0x1680 || 0x2000 <= n <= 0x200A
    || n == 0x2028 || n == 0x2029 || n == 0x202F || n == 0x205F || n == 0x3000
  }

  function TrimStart(s: string): string {
    if s != [] && IsWhite(s[0]) then TrimStart(s[1..]) else s
  }

  function TrimEnd(s: string): string {
    if s != [] && IsWhite(s[|s| - 1]) then TrimEnd(s[..|s| - 1]) else s
  }

  function Trim(s: string): string {
    TrimEnd(TrimStart(s))
  }

  /** The first position from `i` on that is not ASCII white space. */
  function SkipSpace(s: string, i: nat): (j: nat)
    requires i <= |s|
    ensures i <= j <= |s|
    ensures forall k :: i <= k < j ==> IsAsciiSpace(s[k])
    ensures j < |s| ==> !IsAsciiSpace(s[j])
    decreases |s| - i
  {
    if i < |s| && IsAsciiSpace(s[i]) then SkipSpace(s, i + 1) else i
  }

  /** The first position of `c` from `i` on. */
  function Find(s: string, i: nat, c: char): (j: nat)
    requires i <= |s|
    ensures i <= j <= |s|
    ensures forall k :: i <= k < j ==> s[k] != c
    ensures j < |s| ==> s[j] == c
    decreases |s| - i
  {
    if i < |s| && s[i] != c then Find(s, i + 1, c) else i
  }

  function StripPrefix(key: string): string {
    if PREFIX <= key then key[|PREFIX|..] else key
  }

  /** The key written before the `=`. */
  function KeyOf(raw: string): string {
    StripPrefix(Trim(raw))
  }

  /** The opening of a clause's value, after its `=` at `eq`: past an optional second `=` and spaces. */
  function ValueStart(s: string, eq: nat): (j: nat)
    requires eq < |s|
    ensures eq < j <= |s|
  {
    SkipSpace(s, if eq + 1 < |s| && s[eq + 1] == '=' then eq + 2 else eq + 1)
  }

  /** One clause read, and where it ended; or why there is none. */
  datatype Reading = Read(clause: Clause, next: nat) | Bad(error: ParseError)

  /** The quoted value expected at `open`. */
  function ValueAt(s: string, key: string, open: nat): (r: Reading)
    requires open <= |s|
    ensures r.Read? ==> open < r.next <= |s|
  {
    if open == |s| || s[open] != '"' then Bad(UnquotedValue(key))
    else
      var close := Find(s, open + 1, '"');
      if close == |s| then Bad(UnterminatedValue(key))
      else if key == "" then Bad(EmptyKey)
      else Read((key, s[open + 1..close]), close + 1)
  }

  function ClauseAt(s: string, start: nat): (r: Reading)
    requires start < |s|
    ensures r.Read? ==> start < r.next <= |s|
  {
    var eq := Find(s, start, '=');
    if eq == |s| then Bad(MissingEquals)
    else ValueAt(s, KeyOf(s[start..eq]), ValueStart(s, eq))
  }

  /** `clauses` followed by what `r` found; an error stays an error. */
  function After(clauses: seq<Clause>, r: ParseResult): ParseResult {
    match r
    case Parsed(more) => Parsed(clauses + more)
    case Malformed(_) => r
  }

  lemma AfterAfter(a: seq<Clause>, b: seq<Clause>, r: ParseResult)
    ensures After(a, After(b, r)) == After(a + b, r)
  {
    if r.Parsed? {
      assert a + (b + r.clauses) == a + b + r.clauses;
    }
  }

  lemma AfterNothing(r: ParseResult)
    ensures After([], r) == r
  {
    if r.Parsed? {
      assert [] + r.clauses == r.clauses;
    }
  }

  /** The clauses of `s` from `i` on. */
  function ParseFrom(s: string, i: nat): ParseResult
    requires i <= |s|
    decreases |s| - i
  {
    var start := SkipSpace(s, i);
    if start == |s| then Parsed([])
    else match ClauseAt(s, start)
      case Bad(error) => Malformed(error)
      case Read(clause, next) => After([clause], ParseFrom(s, next))
  }

  function Parse(text: string): ParseResult {
    ParseFrom(Trim(text), 0)
  }

  // ----- the scanner as loops -----

  method ScanValue(s: string, key: string, open: nat) returns (r: Reading)
    requires open <= |s|
    ensures r == ValueAt(s, key, open)
  {
    var i := open;
    if i >= |s| || s[i] != '"' {
      return Bad(UnquotedValue(key));
    }
    i := i + 1;
    var valStart := i;
    while i < |s| && s[i] != '"'
      invariant valStart <= i <= |s| && Find(s, valStart, '"') == Find(s, i, '"')
    {
      i := i + 1;
    }
    if i >= |s| {
      return Bad(UnterminatedValue(key));
    }
    var value := s[valStart..i];
    i := i + 1;
    if key == "" {
      return Bad(EmptyKey);
    }
    r := Read((key, value), i);
  }

  method ScanClause(s: string, start: nat) returns (r: Reading)
    requires start < |s|
    ensures r == ClauseAt(s, start)
  {
    var i := start;
    while i < |s| && s[i] != '='
      invariant start <= i <= |s| && Find(s, start, '=') == Find(s, i, '=')
    {
      i := i + 1;
    }
    if i >= |s| {
      return Bad(MissingEquals);
    }
    var key := Trim(s[start..i]);
    if PREFIX <= key {
      key := key[|PREFIX|..];
    }
    ghost var eq := i;
    i := i + 1;
    if i < |s| && s[i] == '=' {
      i := i + 1;
    }
    while i < |s| && IsAsciiSpace(s[i])
      invariant eq < i <= |s| && ValueStart(s, eq) == SkipSpace(s, i)
    {
      i := i + 1;
    }
    r := ScanValue(s, key, i);
  }

  method ScanFilter(text: string) returns (r: ParseResult)
    ensures r == Parse(text)
  {
    var s := Trim(text);
    if s == "" {
      return Parsed([]);
    }
    var clauses: seq<Clause> := [];
    var i := 0;
    AfterNothing(ParseFrom(s, 0));
    while i < |s|
      invariant i <= |s|
      invariant ParseFrom(s, 0) == After(clauses, ParseFrom(s, i))
      decreases |s| - i
    {
      ghost var from := i;
      while i < |s| && IsAsciiSpace(s[i])
        invariant from <= i <= |s| && SkipSpace(s, from) == SkipSpace(s, i)
      {
        i := i + 1;
      }
      if i >= |s| {
        break;
      }
      var reading := ScanClause(s, i);
      if reading.Bad? {
        return Malformed(reading.error);
      }
      AfterAfter(clauses, [reading.clause], ParseFrom(s, reading.next));
      clauses := clauses + [reading.clause];
      i := reading.next;
    }
    r := Parsed(clauses);
  }

  // ----- the grammar -----

  ghost predicate AllSpace(s: string) {
    forall i :: 0 <= i < |s| ==> IsAsciiSpace(s[i])
  }

  ghost predicate AllWhite(s: string) {
    forall i :: 0 <= i < |s| ==> IsWhite(s[i])
  }

  ghost predicate WhiteIn(s: string, lo: nat, hi: nat)
    requires hi <= |s|
  {
    forall k :: lo <= k < hi ==> IsWhite(s[k])
  }

  /** No white space at either end. */
  ghost predicate Bare(s: string) {
    s != "" ==> !IsWhite(s[0]) && !IsWhite(s[|s| - 1])
  }

  /** `s` stands in `raw` at `i`, with nothing but white space before and after it. */
  ghost predicate AroundAt(raw: string, s: string, i: nat) {
    && i + |s| <= |raw| && raw[i..i + |s|] == s
    && WhiteIn(raw, 0, i) && WhiteIn(raw, i + |s|, |raw|)
  }

  ghost predicate Around(raw: string, s: string) {
    exists i :: AroundAt(raw, s, i)
  }

  /** What stands before the `=` names the key `k`: `k` itself or `k` after the prefix, with white space
      around. A key that begins like the prefix or with white space can only be written after the prefix. */
  ghost predicate Denotes(raw: string, k: string) {
    || (Around(raw, PREFIX + k) && (k != "" ==> !IsWhite(k[|k| - 1])))
    || (Around(raw, k) && Bare(k) && !(PREFIX <= k))
  }

  /** The choices in writing one clause: how the key is written, one `=` or two, the space before the value. */
  datatype Spelling = Spelling(raw: string, double: bool, gap: string, value: string)

  function Opening(raw: string, double: bool, gap: string): string {
    raw + (if double then "==" else "=") + gap
  }

  function Quoted(value: string): string {
    "\"" + value + "\""
  }

  function Text(p: Spelling): string {
    Opening(p.raw, p.double, p.gap) + Quoted(p.value)
  }

  function TextAll(ps: seq<Spelling>): string {
    if ps == [] then "" else Text(ps[0]) + TextAll(ps[1..])
  }

  ghost predicate Spells(p: Spelling, c: Clause) {
    && '=' !in p.raw && Denotes(p.raw, c.0) && c.0 != ""
    && AllSpace(p.gap)
    && '"' !in p.value && p.value == c.1
  }

  ghost predicate SpellsAll(ps: seq<Spelling>, cs: seq<Clause>) {
    |ps| == |cs| && forall i :: 0 <= i < |ps| ==> Spells(ps[i], cs[i])
  }

  /** `rest` begins with an opening for key `k`, after which `tail` is left. */
  ghost predicate Opened(rest: string, k: string, p: Spelling, tail: string) {
    && '=' !in p.raw && Denotes(p.raw, k) && AllSpace(p.gap)
    && rest == Opening(p.raw, p.double, p.gap) + tail
  }

  /** No quote comes where the value should start: the text ends, or something else stands there that is
      neither space nor the second `=`. */
  ghost predicate NoQuote(p: Spelling, tail: string) {
    tail != "" ==>
      tail[0] != '"' && !IsAsciiSpace(tail[0]) && (tail[0] == '=' ==> p.double || p.gap != "")
  }

  /** A quote opens the value and none closes it. */
  ghost predicate NoSecondQuote(tail: string) {
    tail != "" && tail[0] == '"' && '"' !in tail[1..]
  }

  ghost predicate QuotedFirst(tail: string) {
    tail != "" && tail[0] == '"' && '"' in tail[1..]
  }

  /** Why `rest`, where a clause should start, has none. */
  ghost predicate Fails(rest: string, e: ParseError) {
    match e
    case MissingEquals => !AllSpace(rest) && '=' !in rest
    case UnquotedValue(k) => exists p, tail :: Opened(rest, k, p, tail) && NoQuote(p, tail)
    case UnterminatedValue(k) => exists p, tail :: Opened(rest, k, p, tail) && NoSecondQuote(tail)
    case EmptyKey => exists p, tail :: Opened(rest, "", p, tail) && QuotedFirst(tail)
  }

  // ----- trimming -----

  /** ASCII white space is the ASCII part of White_Space, but for the vertical tab. */
  lemma SpaceIsWhite(c: char)
    ensures IsAsciiSpace(c) <==> IsWhite(c) && c as int < 0x80 && c as int != 0x0B
  {
  }

  lemma {:induction false} TrimStartDrops(s: string) returns (i: nat)
    ensures i <= |s| && WhiteIn(s, 0, i) && TrimStart(s) == s[i..]
    ensures i < |s| ==> !IsWhite(s[i])
  {
    i := 0;
    if s != [] && IsWhite(s[0]) {
      var j := TrimStartDrops(s[1..]);
      i := j + 1;
      assert s[1..][j..] == s[i..];
      assert forall k :: 1 <= k < i ==> s[k] == s[1..][k - 1];
    }
  }

  lemma {:induction false} TrimEndDrops(s: string) returns (j: nat)
    ensures j <= |s| && WhiteIn(s, j, |s|) && TrimEnd(s) == s[..j]
    ensures j > 0 ==> !IsWhite(s[j - 1])
  {
    j := |s|;
    if s != [] && IsWhite(s[|s| - 1]) {
      var front := s[..|s| - 1];
      j := TrimEndDrops(front);
      assert front[..j] == s[..j];
      assert forall k :: 0 <= k < |front| ==> s[k] == front[k];
    }
  }

  lemma TrimIsBareAround(s: string)
    ensures Bare(Trim(s)) && Around(s, Trim(s))
  {
    var i := TrimStartDrops(s);
    var rest := s[i..];
    var j := TrimEndDrops(rest);
    assert rest[..j] == s[i..i + j];
    assert forall k :: i <= k < |s| ==> s[k] == rest[k - i];
    assert AroundAt(s, Trim(s), i);
  }

  /** Only one way to cut white space off both ends leaves none there. */
  lemma BareAroundUnique(raw: string, s: string, i: nat, t: string, j: nat)
    requires Bare(s) && Bare(t) && AroundAt(raw, s, i) && AroundAt(raw, t, j)
    ensures s == t
  {
    assert s != "" ==> raw[i] == s[0] && raw[i + |s| - 1] == s[|s| - 1];
    assert t != "" ==> raw[j] == t[0] && raw[j + |t| - 1] == t[|t| - 1];
  }

  lemma TrimExactlyWhen(raw: string, s: string)
    ensures Trim(raw) == s <==> Bare(s) && Around(raw, s)
  {
    TrimIsBareAround(raw);
    if Bare(s) && Around(raw, s) {
      var i: nat :| AroundAt(raw, s, i);
      var j: nat :| AroundAt(raw, Trim(raw), j);
      BareAroundUnique(raw, s, i, Trim(raw), j);
    }
  }

  lemma KeyIsDenoted(raw: string)
    ensures Denotes(raw, KeyOf(raw))
  {
    var t, k := Trim(raw), KeyOf(raw);
    TrimIsBareAround(raw);
    if PREFIX <= t {
      assert t == PREFIX + k;
      assert k != "" ==> k[|k| - 1] == t[|t| - 1];
    }
  }

  lemma DenotedIsKey(raw: string, k: string)
    requires Denotes(raw, k)
    ensures KeyOf(raw) == k
  {
    TrimExactlyWhen(raw, PREFIX + k);
    TrimExactlyWhen(raw, k);
    assert (PREFIX + k)[|PREFIX|..] == k;
  }

  /** The key taken from what stands before the `=` is the one it denotes, by either way of writing it. */
  lemma KeyExactlyWhen(raw: string, k: string)
    ensures KeyOf(raw) == k <==> Denotes(raw, k)
  {
    KeyIsDenoted(raw);
    if Denotes(raw, k) {
      DenotedIsKey(raw, k);
    }
  }

  /** Leading space does not matter to the key. */
  lemma LeadingSpaceIsTrimmed(raw: string, n: nat)
    requires n <= |raw| && forall k :: 0 <= k < n ==> IsAsciiSpace(raw[k])
    ensures Trim(raw[n..]) == Trim(raw)
  {
    var rest := raw[n..];
    TrimIsBareAround(rest);
    var i: nat :| AroundAt(rest, Trim(rest), i);
    forall k | 0 <= k < n ensures IsWhite(raw[k]) {
      SpaceIsWhite(raw[k]);
    }
    assert forall k :: n <= k < |raw| ==> raw[k] == rest[k - n];
    assert AroundAt(raw, Trim(rest), n + i);
    TrimExactlyWhen(raw, Trim(rest));
  }

  // ----- one clause -----

  lemma FindAt(s: string, i: nat, j: nat, c: char)
    requires i <= j < |s| && s[j] == c && forall k :: i <= k < j ==> s[k] != c
    ensures Find(s, i, c) == j
  {
  }

  lemma SkipTo(s: string, i: nat, j: nat)
    requires i <= j <= |s| && (forall k :: i <= k < j ==> IsAsciiSpace(s[k])) && (j < |s| ==> !IsAsciiSpace(s[j]))
    ensures SkipSpace(s, i) == j
  {
  }

  /** An opening stands in `s` from `i` to `open`, and goes no further. */
  ghost predicate OpeningAt(s: string, i: nat, p: Spelling, open: nat) {
    var eq := i + |p.raw|;
    var after := eq + if p.double then 2 else 1;
    && '=' !in p.raw && AllSpace(p.gap)
    && open == after + |p.gap| <= |s|
    && s[i..eq] == p.raw && s[eq] == '=' && (p.double ==> s[eq + 1] == '=')
    && s[after..open] == p.gap
    && EndsOpening(p, s[open..])
  }

  /** What follows an opening does not belong to it. */
  ghost predicate EndsOpening(p: Spelling, tail: string) {
    tail != "" ==> !IsAsciiSpace(tail[0]) && (tail[0] == '=' ==> p.double || p.gap != "")
  }

  lemma OpeningKey(s: string, i: nat, p: Spelling, open: nat)
    requires OpeningAt(s, i, p, open)
    ensures var start, eq := SkipSpace(s, i), i + |p.raw|;
            && i <= start <= eq && Find(s, start, '=') == eq
            && Trim(s[start..eq]) == Trim(p.raw)
  {
    var start, eq := SkipSpace(s, i), i + |p.raw|;
    assert !IsAsciiSpace(s[eq]);
    forall k | start <= k < eq ensures s[k] != '=' {
      assert s[k] == p.raw[k - i];
    }
    FindAt(s, start, eq, '=');
    var n := start - i;
    assert forall k :: 0 <= k < n ==> p.raw[k] == s[i + k];
    LeadingSpaceIsTrimmed(p.raw, n);
    assert p.raw[n..] == s[start..eq];
  }

  lemma OpeningEnd(s: string, i: nat, p: Spelling, open: nat)
    requires OpeningAt(s, i, p, open)
    ensures ValueStart(s, i + |p.raw|) == open
  {
    var eq := i + |p.raw|;
    var after := eq + if p.double then 2 else 1;
    forall k | after <= k < open ensures IsAsciiSpace(s[k]) {
      assert s[k] == s[after..open][k - after] == p.gap[k - after];
    }
    assert open < |s| ==> s[open] == s[open..][0];
    SkipTo(s, after, open);
    if !p.double && eq + 1 < |s| {
      assert p.gap != "" ==> s[eq + 1] == p.gap[0];
    }
  }

  lemma ReadOpening(s: string, i: nat, p: Spelling, open: nat)
    requires OpeningAt(s, i, p, open)
    ensures SkipSpace(s, i) < |s| && ClauseAt(s, SkipSpace(s, i)) == ValueAt(s, KeyOf(p.raw), open)
  {
    OpeningKey(s, i, p, open);
    OpeningEnd(s, i, p, open);
  }

  lemma NoEqualsBefore(s: string, i: nat, start: nat)
    requires i <= start <= |s| && start == SkipSpace(s, i)
    ensures '=' !in s[i..Find(s, start, '=')]
  {
    var raw := s[i..Find(s, start, '=')];
    forall k | 0 <= k < |raw| ensures raw[k] != '=' {
      assert raw[k] == s[i + k];
    }
  }

  lemma SkippedIsSpace(s: string, i: nat)
    requires i <= |s|
    ensures AllSpace(s[i..SkipSpace(s, i)])
  {
    var gap := s[i..SkipSpace(s, i)];
    assert forall k :: 0 <= k < |gap| ==> gap[k] == s[i + k];
  }

  /** Whenever there is an `=`, there is an opening. */
  lemma FindOpening(s: string, i: nat) returns (p: Spelling, open: nat)
    requires i <= |s| && SkipSpace(s, i) < |s| && Find(s, SkipSpace(s, i), '=') < |s|
    ensures open <= |s| && OpeningAt(s, i, p, open)
  {
    var start := SkipSpace(s, i);
    var eq := Find(s, start, '=');
    var double := eq + 1 < |s| && s[eq + 1] == '=';
    var after := eq + if double then 2 else 1;
    open := SkipSpace(s, after);
    p := Spelling(s[i..eq], double, s[after..open], "");
    NoEqualsBefore(s, i, start);
    SkippedIsSpace(s, after);
    assert open < |s| ==> s[open..][0] == s[open];
  }

  // An opening by place and by text.

  lemma FourPieces(s: string, i: nat, a: nat, b: nat, c: nat)
    requires i <= a <= b <= c <= |s|
    ensures s[i..] == s[i..a] + s[a..b] + s[b..c] + s[c..]
  {
  }

  lemma TextFromOpening(s: string, i: nat, p: Spelling, open: nat)
    requires i <= |s| && OpeningAt(s, i, p, open)
    ensures s[i..] == Opening(p.raw, p.double, p.gap) + s[open..]
  {
    var eq := i + |p.raw|;
    var after := eq + if p.double then 2 else 1;
    if p.double {
      assert s[eq..after] == [s[eq], s[eq + 1]] == "==";
    } else {
      assert s[eq..after] == [s[eq]] == "=";
    }
    FourPieces(s, i, eq, after, open);
  }

  lemma OpeningFromText(s: string, i: nat, p: Spelling, open: nat)
    requires i <= |s| && open <= |s| && s[i..] == Opening(p.raw, p.double, p.gap) + s[open..]
    requires '=' !in p.raw && AllSpace(p.gap) && EndsOpening(p, s[open..])
    ensures OpeningAt(s, i, p, open)
  {
    var o := Opening(p.raw, p.double, p.gap);
    var r := |p.raw|;
    var e := if p.double then 2 else 1;
    assert |s| - i == |s[i..]| == |o| + (|s| - open);
    assert forall k :: 0 <= k < |o| ==> s[i + k] == s[i..][k] == o[k];
    assert o[..r] == p.raw && o[r] == '=' && (p.double ==> o[r + 1] == '=') && o[r + e..] == p.gap;
    assert s[i..i + r] == o[..r];
    assert s[i + r + e..open] == o[r + e..];
  }

  // ----- the value -----

  lemma ReadValue(s: string, key: string, open: nat, value: string, next: nat)
    requires open <= |s| && next <= |s| && s[open..] == Quoted(value) + s[next..] && '"' !in value && key != ""
    ensures ValueAt(s, key, open) == Read((key, value), next)
  {
    var q := Quoted(value);
    var close := open + 1 + |value|;
    assert |s| - open == |s[open..]| == |q| + (|s| - next);
    assert forall k :: 0 <= k < |q| ==> s[open + k] == s[open..][k] == q[k];
    assert forall k :: 0 <= k < |value| ==> q[k + 1] == value[k];
    assert s[open + 1..close] == value;
    FindAt(s, open + 1, close, '"');
  }

  lemma ValueWasQuoted(s: string, key: string, open: nat)
    requires open <= |s| && ValueAt(s, key, open).Read?
    ensures var r := ValueAt(s, key, open);
            && r.clause.0 == key != "" && '"' !in r.clause.1
            && s[open..] == Quoted(r.clause.1) + s[r.next..]
  {
    var close := Find(s, open + 1, '"');
    var value := s[open + 1..close];
    assert forall k :: 0 <= k < |value| ==> value[k] == s[open + 1 + k];
    FourPieces(s, open, open + 1, close, close + 1);
    assert s[open..open + 1] == "\"" == s[close..close + 1];
  }

  lemma InTail(s: string, open: nat, c: char)
    requires open < |s|
    ensures c in s[open..][1..] <==> Find(s, open + 1, c) < |s|
  {
    var t := s[open..][1..];
    var j := Find(s, open + 1, c);
    assert forall k :: 0 <= k < |t| ==> t[k] == s[open + 1 + k];
    if j < |s| {
      assert t[j - open - 1] == s[j];
    }
  }

  /** The three ways in which what follows an opening can fail to be a value of key `k`. */
  ghost predicate NoValue(k: string, p: Spelling, tail: string, e: ParseError) {
    || (e == UnquotedValue(k) && NoQuote(p, tail))
    || (e == UnterminatedValue(k) && NoSecondQuote(tail))
    || (e == EmptyKey && k == "" && QuotedFirst(tail))
  }

  lemma ValueFails(s: string, k: string, p: Spelling, open: nat, e: ParseError)
    requires open <= |s| && EndsOpening(p, s[open..])
    ensures ValueAt(s, k, open) == Bad(e) <==> NoValue(k, p, s[open..], e)
  {
    var tail := s[open..];
    if open < |s| {
      assert tail[0] == s[open];
      InTail(s, open, '"');
    }
  }

  // ----- clauses by the key that is read -----

  ghost predicate Written(p: Spelling, c: Clause) {
    && '=' !in p.raw && KeyOf(p.raw) == c.0 && c.0 != ""
    && AllSpace(p.gap)
    && '"' !in p.value && p.value == c.1
  }

  ghost predicate WrittenAll(ps: seq<Spelling>, cs: seq<Clause>) {
    |ps| == |cs| && forall i :: 0 <= i < |ps| ==> Written(ps[i], cs[i])
  }

  /** Where a clause should start there is no `=`, or there is an opening but no value. */
  ghost predicate Broken(rest: string, p: Spelling, tail: string, e: ParseError) {
    if e.MissingEquals? then !AllSpace(rest) && '=' !in rest
    else
      && '=' !in p.raw && AllSpace(p.gap)
      && rest == Opening(p.raw, p.double, p.gap) + tail
      && NoValue(KeyOf(p.raw), p, tail, e)
  }

  lemma SpellsIsWritten(p: Spelling, c: Clause)
    ensures Spells(p, c) <==> Written(p, c)
  {
    KeyExactlyWhen(p.raw, c.0);
  }

  lemma SpellsAllIsWrittenAll(ps: seq<Spelling>, cs: seq<Clause>)
    ensures SpellsAll(ps, cs) <==> WrittenAll(ps, cs)
  {
    forall i | |ps| == |cs| && 0 <= i < |ps| ensures Spells(ps[i], cs[i]) <==> Written(ps[i], cs[i]) {
      SpellsIsWritten(ps[i], cs[i]);
    }
  }

  lemma BrokenFails(rest: string, p: Spelling, tail: string, e: ParseError)
    requires Broken(rest, p, tail, e)
    ensures Fails(rest, e)
  {
    if !e.MissingEquals? {
      KeyExactlyWhen(p.raw, KeyOf(p.raw));
      assert Opened(rest, KeyOf(p.raw), p, tail);
    }
  }

  lemma FailingIsBroken(rest: string, e: ParseError) returns (p: Spelling, tail: string)
    requires Fails(rest, e)
    ensures Broken(rest, p, tail, e)
  {
    p, tail := Spelling("", false, "", ""), "";
    if !e.MissingEquals? {
      var k := if e.EmptyKey? then "" else e.key;
      p, tail :| Opened(rest, k, p, tail) && NoValue(k, p, tail, e);
      KeyExactlyWhen(p.raw, k);
    }
  }

  lemma TextTail(p: Spelling, rest: string)
    ensures Text(p) + rest == Opening(p.raw, p.double, p.gap) + (Quoted(p.value) + rest)
  {
  }

  /** A written clause is read as the clause it stands for. */
  lemma ReadWritten(s: string, i: nat, p: Spelling, c: Clause, next: nat)
    requires i <= |s| && next <= |s| && s[i..] == Text(p) + s[next..] && Written(p, c)
    ensures SkipSpace(s, i) < |s| && ClauseAt(s, SkipSpace(s, i)) == Read(c, next)
  {
    TextTail(p, s[next..]);
    var open := i + |Opening(p.raw, p.double, p.gap)|;
    assert s[open..] == s[i..][open - i..] == Quoted(p.value) + s[next..];
    OpeningFromText(s, i, p, open);
    ReadOpening(s, i, p, open);
    ReadValue(s, c.0, open, p.value, next);
  }

  /** A clause that is read was written there. */
  lemma ReadWasWritten(s: string, i: nat) returns (p: Spelling)
    requires i <= |s| && SkipSpace(s, i) < |s| && ClauseAt(s, SkipSpace(s, i)).Read?
    ensures var r := ClauseAt(s, SkipSpace(s, i));
            Written(p, r.clause) && s[i..] == Text(p) + s[r.next..]
  {
    var r := ClauseAt(s, SkipSpace(s, i));
    var q, open := FindOpening(s, i);
    ReadOpening(s, i, q, open);
    ValueWasQuoted(s, KeyOf(q.raw), open);
    TextFromOpening(s, i, q, open);
    p := q.(value := r.clause.1);
    TextTail(p, s[r.next..]);
  }

  lemma NoEqualsAtAll(s: string, i: nat)
    requires i <= |s|
    ensures !AllSpace(s[i..]) && '=' !in s[i..]
            <==> SkipSpace(s, i) < |s| && Find(s, SkipSpace(s, i), '=') == |s|
  {
    var rest, start := s[i..], SkipSpace(s, i);
    assert forall k :: 0 <= k < |rest| ==> rest[k] == s[i + k];
    assert forall k :: i <= k < |s| ==> s[k] == rest[k - i];
  }

  lemma OpeningOfTail(s: string, i: nat, o: string, tail: string) returns (open: nat)
    requires i <= |s| && s[i..] == o + tail
    ensures open <= |s| && open == i + |o| && s[open..] == tail
  {
    open := i + |o|;
    assert s[open..] == s[i..][|o|..];
  }

  /** A broken rest is refused for the reason it gives. */
  lemma ReadBroken(s: string, i: nat, p: Spelling, tail: string, e: ParseError)
    requires i <= |s| && Broken(s[i..], p, tail, e)
    ensures SkipSpace(s, i) < |s| && ClauseAt(s, SkipSpace(s, i)) == Bad(e)
  {
    if e.MissingEquals? {
      NoEqualsAtAll(s, i);
    } else {
      var open := OpeningOfTail(s, i, Opening(p.raw, p.double, p.gap), tail);
      OpeningFromText(s, i, p, open);
      ReadOpening(s, i, p, open);
      ValueFails(s, KeyOf(p.raw), p, open, e);
    }
  }

  /** What is refused is broken for the reason given. */
  lemma RefusedWasBroken(s: string, i: nat) returns (p: Spelling, tail: string)
    requires i <= |s| && SkipSpace(s, i) < |s| && ClauseAt(s, SkipSpace(s, i)).Bad?
    ensures Broken(s[i..], p, tail, ClauseAt(s, SkipSpace(s, i)).error)
  {
    var e := ClauseAt(s, SkipSpace(s, i)).error;
    p, tail := Spelling("", false, "", ""), "";
    NoEqualsAtAll(s, i);
    if Find(s, SkipSpace(s, i), '=') < |s| {
      var q, open := FindOpening(s, i);
      ReadOpening(s, i, q, open);
      TextFromOpening(s, i, q, open);
      ValueFails(s, KeyOf(q.raw), q, open, e);
      p, tail := q, s[open..];
    }
  }

  // ----- whole texts -----

  lemma TakeFirst(s: string, i: nat, a: string, b: string, next: nat)
    requires i <= |s| && next <= |s| && s[i..] == a + b + s[next..]
    ensures i + |a| <= |s| && s[i + |a|..] == b + s[next..] && s[i..] == a + s[i + |a|..]
  {
    assert |s| - i == |a| + |b| + |s| - next;
    assert s[i + |a|..] == s[i..][|a|..];
  }

  lemma TailIsWritten(ps: seq<Spelling>, cs: seq<Clause>)
    requires WrittenAll(ps, cs) && ps != []
    ensures Written(ps[0], cs[0]) && WrittenAll(ps[1..], cs[1..])
  {
  }

  lemma ParseOneWritten(s: string, i: nat, p: Spelling, c: Clause, next: nat)
    requires i <= |s| && next <= |s| && s[i..] == Text(p) + s[next..] && Written(p, c)
    ensures ParseFrom(s, i) == After([c], ParseFrom(s, next))
  {
    ReadWritten(s, i, p, c, next);
  }

  lemma HeadOfAll(s: string, i: nat, ps: seq<Spelling>, next: nat) returns (mid: nat)
    requires i <= |s| && next <= |s| && s[i..] == TextAll(ps) + s[next..] && ps != []
    ensures mid <= |s| && s[mid..] == TextAll(ps[1..]) + s[next..] && s[i..] == Text(ps[0]) + s[mid..]
  {
    var first, rest := Text(ps[0]), TextAll(ps[1..]);
    mid := i + |first|;
    TakeFirst(s, i, first, rest, next);
  }

  lemma ParseFirstWritten(s: string, i: nat, ps: seq<Spelling>, cs: seq<Clause>, next: nat) returns (mid: nat)
    requires i <= |s| && next <= |s| && s[i..] == TextAll(ps) + s[next..] && WrittenAll(ps, cs) && ps != []
    ensures mid <= |s| && s[mid..] == TextAll(ps[1..]) + s[next..]
    ensures ParseFrom(s, i) == After([cs[0]], ParseFrom(s, mid))
  {
    mid := HeadOfAll(s, i, ps, next);
    ParseOneWritten(s, i, ps[0], cs[0], mid);
  }

  lemma {:induction false} ParseWritten(s: string, i: nat, ps: seq<Spelling>, cs: seq<Clause>, next: nat)
    requires i <= |s| && next <= |s| && s[i..] == TextAll(ps) + s[next..] && WrittenAll(ps, cs)
    ensures ParseFrom(s, i) == After(cs, ParseFrom(s, next))
    decreases |ps|
  {
    if ps == [] {
      assert |s| - i == |s| - next;
      AfterNothing(ParseFrom(s, i));
    } else {
      var mid := ParseFirstWritten(s, i, ps, cs, next);
      TailIsWritten(ps, cs);
      ParseWritten(s, mid, ps[1..], cs[1..], next);
      AfterOneMore(cs, ParseFrom(s, i), ParseFrom(s, mid), ParseFrom(s, next));
    }
  }

  lemma AfterOneMore(cs: seq<Clause>, a: ParseResult, b: ParseResult, r: ParseResult)
    requires cs != [] && a == After([cs[0]], b) && b == After(cs[1..], r)
    ensures a == After(cs, r)
  {
    AfterAfter([cs[0]], cs[1..], r);
    assert [cs[0]] + cs[1..] == cs;
  }

  lemma ParseSpace(s: string, i: nat)
    requires i <= |s| && AllSpace(s[i..])
    ensures ParseFrom(s, i) == Parsed([])
  {
    forall k | i <= k < |s| ensures IsAsciiSpace(s[k]) {
      assert s[k] == s[i..][k - i];
    }
    SkipTo(s, i, |s|);
  }

  lemma WrittenThen(p: Spelling, c: Clause, ps: seq<Spelling>, cs: seq<Clause>, rest: string)
    requires Written(p, c) && WrittenAll(ps, cs)
    ensures WrittenAll([p] + ps, [c] + cs)
    ensures TextAll([p] + ps) + rest == Text(p) + (TextAll(ps) + rest)
  {
    assert ([p] + ps)[1..] == ps;
  }

  /** What the parse of a text amounts to, once its correctly written clauses are taken off. */
  ghost predicate Leaves(r: ParseResult, cs: seq<Clause>, rest: string, p: Spelling, tail: string) {
    match r
    case Parsed(all) => all == cs && AllSpace(rest)
    case Malformed(e) => Broken(rest, p, tail, e)
  }

  lemma DecomposeLast(s: string, i: nat) returns (p: Spelling, tail: string)
    requires i <= |s| && (SkipSpace(s, i) == |s| || ClauseAt(s, SkipSpace(s, i)).Bad?)
    ensures Leaves(ParseFrom(s, i), [], s[i..], p, tail)
  {
    p, tail := Spelling("", false, "", ""), "";
    if SkipSpace(s, i) < |s| {
      p, tail := RefusedWasBroken(s, i);
    } else {
      SkippedIsSpace(s, i);
      assert s[i..|s|] == s[i..];
    }
  }

  lemma LeavesAfter(c: Clause, cs: seq<Clause>, r: ParseResult, rest: string, p: Spelling, tail: string)
    requires Leaves(r, cs, rest, p, tail)
    ensures Leaves(After([c], r), [c] + cs, rest, p, tail)
  {
  }

  /** Every text is a run of written clauses, then space or a broken rest. */
  lemma {:induction false} Decompose(s: string, i: nat)
      returns (ps: seq<Spelling>, cs: seq<Clause>, rest: string, p: Spelling, tail: string)
    requires i <= |s|
    ensures s[i..] == TextAll(ps) + rest && WrittenAll(ps, cs) && Leaves(ParseFrom(s, i), cs, rest, p, tail)
    decreases |s| - i
  {
    var start := SkipSpace(s, i);
    if start == |s| || ClauseAt(s, start).Bad? {
      ps, cs, rest := [], [], s[i..];
      assert "" + s[i..] == s[i..];
      p, tail := DecomposeLast(s, i);
    } else {
      var r := ClauseAt(s, start);
      var q := ReadWasWritten(s, i);
      var qs, ds;
      qs, ds, rest, p, tail := Decompose(s, r.next);
      WrittenThen(q, r.clause, qs, ds, rest);
      LeavesAfter(r.clause, ds, ParseFrom(s, r.next), rest, p, tail);
      ps, cs := [q] + qs, [r.clause] + ds;
    }
  }

  lemma BareRest(body: string, ps: seq<Spelling>, rest: string)
    requires Bare(body) && body == TextAll(ps) + rest && AllSpace(rest)
    ensures rest == ""
  {
    if rest != "" {
      assert body[|body| - 1] == rest[|rest| - 1];
      SpaceIsWhite(rest[|rest| - 1]);
    }
  }

  lemma WrittenTextParses(body: string, ps: seq<Spelling>, cs: seq<Clause>)
    requires WrittenAll(ps, cs) && body == TextAll(ps)
    ensures ParseFrom(body, 0) == Parsed(cs)
  {
    assert body[0..] == TextAll(ps) + body[|body|..];
    ParseWritten(body, 0, ps, cs, |body|);
    ParseSpace(body, |body|);
  }

  lemma ParsedTextIsWritten(body: string, cs: seq<Clause>) returns (ps: seq<Spelling>)
    requires Bare(body) && ParseFrom(body, 0) == Parsed(cs)
    ensures WrittenAll(ps, cs) && body == TextAll(ps)
  {
    var ds, rest, p, tail;
    ps, ds, rest, p, tail := Decompose(body, 0);
    assert body[0..] == body;
    BareRest(body, ps, rest);
    assert TextAll(ps) + "" == TextAll(ps);
  }

  /** The accepted texts and what they mean: with the white space around it cut off, a text parses as
      `cs` exactly when it spells those clauses one after the other, each in any of the ways there are. */
  lemma ParsesExactlyWhen(text: string, body: string, cs: seq<Clause>)
    requires Bare(body) && Around(text, body)
    ensures Parse(text) == Parsed(cs) <==> exists ps :: SpellsAll(ps, cs) && body == TextAll(ps)
  {
    TrimExactlyWhen(text, body);
    if Parse(text) == Parsed(cs) {
      var ps := ParsedTextIsWritten(body, cs);
      SpellsAllIsWrittenAll(ps, cs);
    }
    if ps :| SpellsAll(ps, cs) && body == TextAll(ps) {
      SpellsAllIsWrittenAll(ps, cs);
      WrittenTextParses(body, ps, cs);
    }
  }

  /** `body` spells the clauses `cs` and then fails for reason `e`. */
  ghost predicate Breaks(body: string, ps: seq<Spelling>, cs: seq<Clause>, rest: string, e: ParseError) {
    SpellsAll(ps, cs) && body == TextAll(ps) + rest && Fails(rest, e)
  }

  lemma BrokenRestFails(body: string, ps: seq<Spelling>, cs: seq<Clause>, rest: string,
                        p: Spelling, tail: string, e: ParseError)
    requires WrittenAll(ps, cs) && body == TextAll(ps) + rest && Broken(rest, p, tail, e)
    ensures ParseFrom(body, 0) == Malformed(e)
  {
    var next := OpeningOfTail(body, 0, TextAll(ps), rest);
    ParseWritten(body, 0, ps, cs, next);
    ReadBroken(body, next, p, tail, e);
  }

  lemma BrokenTextFails(body: string, ps: seq<Spelling>, cs: seq<Clause>, rest: string, e: ParseError)
    requires Breaks(body, ps, cs, rest, e)
    ensures ParseFrom(body, 0) == Malformed(e)
  {
    SpellsAllIsWrittenAll(ps, cs);
    var p, tail := FailingIsBroken(rest, e);
    BrokenRestFails(body, ps, cs, rest, p, tail, e);
  }

  lemma FailedTextBreaks(body: string, e: ParseError) returns (ps: seq<Spelling>, cs: seq<Clause>, rest: string)
    requires ParseFrom(body, 0) == Malformed(e)
    ensures Breaks(body, ps, cs, rest, e)
  {
    var p, tail;
    ps, cs, rest, p, tail := Decompose(body, 0);
    assert body[0..] == body;
    SpellsAllIsWrittenAll(ps, cs);
    BrokenFails(rest, p, tail, e);
  }

  /** The refused texts and why: some clauses, perhaps none, are spelled correctly, and what follows fails
      to be one for exactly the reason reported. */
  lemma FailsExactlyWhen(text: string, body: string, e: ParseError)
    requires Bare(body) && Around(text, body)
    ensures Parse(text) == Malformed(e) <==> exists ps, cs, rest :: Breaks(body, ps, cs, rest, e)
  {
    TrimExactlyWhen(text, body);
    if Parse(text) == Malformed(e) {
      var ps, cs, rest := FailedTextBreaks(body, e);
    }
    if ps, cs, rest :| Breaks(body, ps, cs, rest, e) {
      BrokenTextFails(body, ps, cs, rest, e);
    }
  }

  // ----- ways of writing a key -----

  lemma BetweenWhite(before: string, s: string, after: string)
    requires AllWhite(before) && AllWhite(after)
    ensures AroundAt(before + s + after, s, |before|)
  {
    var raw := before + s + after;
    assert forall k :: |before| + |s| <= k < |raw| ==> raw[k] == after[k - |before| - |s|];
  }

  /** A key is not empty, has no `=` and no white space at its end; a value has no quote. */
  predicate Expressible(c: Clause) {
    c.0 != "" && '=' !in c.0 && !IsWhite(c.0[|c.0| - 1]) && '"' !in c.1
  }

  ghost predicate AllExpressible(cs: seq<Clause>) {
    forall c :: c in cs ==> Expressible(c)
  }

  lemma NoEqualsAround(before: string, s: string, after: string)
    requires AllWhite(before) && AllWhite(after) && '=' !in s
    ensures '=' !in before + s + after
  {
  }

  /** Every expressible clause can be written after the prefix, with one `=` or two, and space around. */
  lemma PrefixedSpelling(c: Clause, before: string, after: string, double: bool, gap: string)
    requires Expressible(c) && AllWhite(before) && AllWhite(after) && AllSpace(gap)
    ensures Spells(Spelling(before + (PREFIX + c.0) + after, double, gap, c.1), c)
  {
    BetweenWhite(before, PREFIX + c.0, after);
    NoEqualsAround(before, PREFIX + c.0, after);
  }

  /** And without the prefix exactly when its key begins neither with white space nor like the prefix. */
  lemma PlainSpellingExactlyWhen(c: Clause, before: string, after: string, double: bool, gap: string)
    requires Expressible(c) && AllWhite(before) && AllWhite(after) && AllSpace(gap)
    ensures Spells(Spelling(before + c.0 + after, double, gap, c.1), c) <==> !IsWhite(c.0[0]) && !(PREFIX <= c.0)
  {
    var raw := before + c.0 + after;
    BetweenWhite(before, c.0, after);
    NoEqualsAround(before, c.0, after);
    KeyExactlyWhen(raw, c.0);
    if IsWhite(c.0[0]) && Denotes(raw, c.0) {
      WhiteKeyIsCut(raw, before, c.0, after);
    }
    if PREFIX <= c.0 {
      TrimExactlyWhen(raw, c.0);
    }
  }

  lemma WhiteKeyIsCut(raw: string, before: string, k: string, after: string)
    requires raw == before + k + after && k != "" && IsWhite(k[0]) && AllWhite(before) && AllWhite(after)
    ensures !Denotes(raw, k)
  {
    KeyExactlyWhen(raw, k);
    var t := Trim(raw);
    TrimIsBareAround(raw);
    var i: nat :| AroundAt(raw, t, i);
    BetweenWhite(before, k, after);
    assert raw[|before|] == k[0];
    assert t != "" ==> raw[i] == t[0] && raw[i + |t| - 1] == t[|t| - 1];
    assert |StripPrefix(t)| <= |t| < |k|;
  }

  // ----- the printer -----

  function PrintClause(c: Clause): string {
    PREFIX + c.0 + "=\"" + c.1 + "\""
  }

  function PrintRest(cs: seq<Clause>): string {
    if cs == [] then "" else " " + PrintClause(cs[0]) + PrintRest(cs[1..])
  }

  function Print(cs: seq<Clause>): string {
    if cs == [] then "" else PrintClause(cs[0]) + PrintRest(cs[1..])
  }

  function PrintedAs(lead: string, c: Clause): Spelling {
    Spelling(lead + PREFIX + c.0, false, "", c.1)
  }

  lemma PrintedSpells(lead: string, c: Clause)
    requires Expressible(c) && AllWhite(lead)
    ensures Spells(PrintedAs(lead, c), c) && Text(PrintedAs(lead, c)) == lead + PrintClause(c)
  {
    PrefixedSpelling(c, lead, "", false, "");
    assert lead + (PREFIX + c.0) + "" == lead + PREFIX + c.0;
    assert Text(PrintedAs(lead, c)) == lead + PREFIX + c.0 + "=" + "" + "\"" + c.1 + "\"";
  }

  lemma {:induction false} RestIsSpelled(cs: seq<Clause>) returns (ps: seq<Spelling>)
    requires AllExpressible(cs)
    ensures SpellsAll(ps, cs) && TextAll(ps) == PrintRest(cs)
  {
    if cs == [] {
      ps := [];
    } else {
      var qs := RestIsSpelled(cs[1..]);
      PrintedSpells(" ", cs[0]);
      ps := [PrintedAs(" ", cs[0])] + qs;
      assert ps[1..] == qs;
    }
  }

  lemma {:induction false} PrintRestEndsInQuote(cs: seq<Clause>)
    ensures cs != [] ==> PrintRest(cs) != "" && PrintRest(cs)[|PrintRest(cs)| - 1] == '"'
  {
    if cs != [] {
      PrintRestEndsInQuote(cs[1..]);
    }
  }

  lemma PrintIsBare(cs: seq<Clause>)
    ensures Bare(Print(cs))
  {
    if cs != [] {
      PrintRestEndsInQuote(cs[1..]);
      var first, rest := PrintClause(cs[0]), PrintRest(cs[1..]);
      assert first[0] == PREFIX[0] == 'a' && first[|first| - 1] == '"';
      assert Print(cs) == first + rest;
    }
  }

  lemma PrintIsSpelled(cs: seq<Clause>) returns (ps: seq<Spelling>)
    requires AllExpressible(cs)
    ensures SpellsAll(ps, cs) && TextAll(ps) == Print(cs)
  {
    ps := [];
    if cs != [] {
      var qs := RestIsSpelled(cs[1..]);
      PrintedSpells("", cs[0]);
      ps := [PrintedAs("", cs[0])] + qs;
      assert ps[1..] == qs;
      assert "" + PrintClause(cs[0]) == PrintClause(cs[0]);
    }
  }

  lemma KeyIsExpressible(raw: string)
    requires '=' !in raw && KeyOf(raw) != ""
    ensures '=' !in KeyOf(raw) && !IsWhite(KeyOf(raw)[|KeyOf(raw)| - 1])
  {
    var t, k := Trim(raw), KeyOf(raw);
    TrimIsBareAround(raw);
    var i: nat :| AroundAt(raw, t, i);
    assert k == t[|t| - |k|..];
    assert k[|k| - 1] == t[|t| - 1];
    forall j | 0 <= j < |k| ensures k[j] != '=' {
      assert k[j] == t[|t| - |k| + j] == raw[i + |t| - |k| + j];
    }
  }

  lemma WrittenIsExpressible(ps: seq<Spelling>, cs: seq<Clause>, i: nat)
    requires WrittenAll(ps, cs) && i < |cs|
    ensures Expressible(cs[i])
  {
    KeyIsExpressible(ps[i].raw);
  }

  lemma ParsedIsExpressible(text: string)
    ensures Parse(text).Parsed? ==> AllExpressible(Parse(text).clauses)
  {
    var ps, cs, rest, p, tail := Decompose(Trim(text), 0);
    forall c | c in cs ensures Expressible(c) {
      var i: nat :| i < |cs| && cs[i] == c;
      WrittenIsExpressible(ps, cs, i);
    }
  }

  /** Printing and parsing again gives back exactly the expressible clause lists. */
  lemma PrintThenParse(cs: seq<Clause>)
    ensures Parse(Print(cs)) == Parsed(cs) <==> AllExpressible(cs)
  {
    if AllExpressible(cs) {
      var ps := PrintIsSpelled(cs);
      PrintIsBare(cs);
      TrimExactlyWhen(Print(cs), Print(cs));
      assert AroundAt(Print(cs), Print(cs), 0);
      SpellsAllIsWrittenAll(ps, cs);
      WrittenTextParses(Print(cs), ps, cs);
    }
    ParsedIsExpressible(Print(cs));
  }

  /** Every text the parser accepts has a canonical form that means the same clauses; and the clause lists
      some text stands for are exactly the expressible ones. */
  lemma RoundTrip(text: string)
    ensures Parse(text).Parsed? ==> Parse(Print(Parse(text).clauses)) == Parse(text)
    ensures Parse(text).Parsed? ==> AllExpressible(Parse(text).clauses)
  {
    ParsedIsExpressible(text);
    if Parse(text).Parsed? {
      PrintThenParse(Parse(text).clauses);
    }
  }

  // ----- matching -----

  /** Every clause matches one of the message's attributes. */
  predicate Matches(cs: seq<Clause>, attributes: map<string, string>) {
    forall c :: c in cs ==> c.0 in attributes && attributes[c.0] == c.1
  }

  function Wanting(cs: seq<Clause>): map<string, string> {
    if cs == [] then map[] else Wanting(cs[..|cs| - 1])[cs[|cs| - 1].0 := cs[|cs| - 1].1]
  }

  lemma {:induction false} WantingHolds(cs: seq<Clause>)
    requires forall c, d :: c in cs && d in cs && c.0 == d.0 ==> c.1 == d.1
    ensures Matches(cs, Wanting(cs))
  {
    if cs != [] {
      WantingHolds(cs[..|cs| - 1]);
    }
  }

  /** Some message matches a filter exactly when no two of its clauses want different values of one key. */
  lemma SatisfiableExactlyWhen(cs: seq<Clause>)
    ensures (exists attributes :: Matches(cs, attributes))
            <==> forall c, d :: c in cs && d in cs && c.0 == d.0 ==> c.1 == d.1
  {
    if forall c, d :: c in cs && d in cs && c.0 == d.0 ==> c.1 == d.1 {
      WantingHolds(cs);
    }
  }
}
