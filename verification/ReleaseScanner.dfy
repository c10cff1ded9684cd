/**
  Picking the latest release from the text of a GitHub answer, with a scanner that
  counts braces and looks fields up by their quoted names. Text stops before the
  terminator, so the end of a string stands for the terminating zero.
 */
module ReleaseScanner {
  import opened Bytes
  import opened GlobMatch
  import opened Options

  const TAG_SIZE: nat := 64
  const TIME_SIZE: nat := 32

  predicate Blank(c: char) {
    c == ' ' || c == '\t' || c == '\n' || c == '\r'
  }

  function Blanks(t: string): (n: nat)
    ensures n <= |t|
  {
    if t == "" || !Blank(t[0]) then 0 else 1 + Blanks(t[1..])
  }

  /** Blanks and colons between a field's name and its value. */
  function Separators(t: string): (n: nat)
    ensures n <= |t|
  {
    if t == "" || !(Blank(t[0]) || t[0] == ':') then 0 else 1 + Separators(t[1..])
  }

  // ---- Strings ------------------------------------------------------------

  /** The length of a string literal's inside, from behind the opening quote. */
  function StringLen(t: string): (n: nat)
    ensures n <= |t|
  {
    if t == "" || t[0] == '"' then 0
    else if t[0] == '\\' && |t| > 1 then 2 + StringLen(t[2..])
    else 1 + StringLen(t[1..])
  }

  /** What is copied from behind an opening quote: escapes lose their backslash, `cap` characters at most. */
  function Value(t: string, cap: nat): (v: string)
    ensures |v| <= cap
    decreases |t|
  {
    if cap == 0 || t == "" || t[0] == '"' then ""
    else if t[0] == '\\' && |t| > 1 then [t[1]] + Value(t[2..], cap - 1)
    else [t[0]] + Value(t[1..], cap - 1)
  }

  function Quoted(s: string): string {
    "\"" + s + "\""
  }

  /** The value behind the first occurrence of the quoted key, if it is a string. */
  function FindString(t: string, key: string, size: nat): Option<string>
    requires size > 0
  {
    var k := FirstFrom(t, Quoted(key), 0);
    if |Quoted(key)| >= 128 || k == -1 then None
    else StringAt(t[k + |Quoted(key)|..], size)
  }

  function StringAt(t: string, size: nat): Option<string>
    requires size > 0
  {
    var v := t[Separators(t)..];
    if v == "" || v[0] != '"' then None else Some(Value(v[1..], size - 1))
  }

  method SkipBlanks(json: string, start: nat) returns (pos: nat)
    requires start <= |json|
    ensures pos == start + Blanks(json[start..])
  {
    pos := start;
    while pos < |json| && Blank(json[pos])
      invariant start <= pos <= |json| && pos + Blanks(json[pos..]) == start + Blanks(json[start..])
    {
      assert json[pos..][1..] == json[pos + 1..];
      pos := pos + 1;
    }
  }

  method SkipSeparators(json: string, start: nat) returns (pos: nat)
    requires start <= |json|
    ensures pos == start + Separators(json[start..])
  {
    pos := start;
    while pos < |json| && (Blank(json[pos]) || json[pos] == ':')
      invariant start <= pos <= |json| && pos + Separators(json[pos..]) == start + Separators(json[start..])
    {
      assert json[pos..][1..] == json[pos + 1..];
      pos := pos + 1;
    }
  }

  lemma ValueStep(t: string, cap: nat)
    requires t != "" && t[0] != '"' && cap > 0
    ensures var k := if t[0] == '\\' && |t| > 1 then 2 else 1;
      Value(t, cap) == [t[k - 1]] + Value(t[k..], cap - 1)
  {
  }

  lemma ValueEnd(t: string, cap: nat)
    requires t == "" || t[0] == '"' || cap == 0
    ensures Value(t, cap) == ""
  {
  }

  /** Copies a value from behind its opening quote into a buffer of `size` characters. */
  method CopyValue(json: string, start: nat, size: nat) returns (out: string)
    requires start <= |json| && size > 0
    ensures out == Value(json[start..], size - 1)
  {
    hide Value;
    var pos := start;
    out := "";
    while pos < |json| && json[pos] != '"' && |out| < size - 1
      invariant start <= pos <= |json| && |out| <= size - 1
      invariant out + Value(json[pos..], size - 1 - |out|) == Value(json[start..], size - 1)
      decreases |json| - pos
    {
      ghost var before, p := out, pos;
      ValueStep(json[pos..], size - 1 - |out|);
      if json[pos] == '\\' && pos + 1 < |json| {
        pos := pos + 1;
      }
      out, pos := out + [json[pos]], pos + 1;
      assert json[p..][pos - p..] == json[pos..];
      Assoc(before, [json[pos - 1]], Value(json[pos..], size - 1 - |out|));
    }
    ValueEnd(json[pos..], size - 1 - |out|);
  }

  lemma Suffix<T>(s: seq<T>, a: nat, b: nat)
    requires a + b <= |s|
    ensures s[a..][b..] == s[a + b..]
  {
  }

  method JsonFindString(json: string, start: nat, key: string, size: nat) returns (r: Option<string>)
    requires start <= |json| && size > 0
    ensures r == FindString(json[start..], key, size)
  {
    hide Separators, Value;
    var searchKey := "\"" + key + "\"";
    assert searchKey == Quoted(key);
    if |searchKey| >= 128 { return None; }
    var found := FirstFrom(json[start..], searchKey, 0);
    if found == -1 { return None; }
    var pos := start + found + |searchKey|;
    Suffix(json, start, found + |searchKey|);
    ghost var t := json[pos..];
    assert FindString(json[start..], key, size) == StringAt(t, size);
    pos := SkipSeparators(json, pos);
    Suffix(json, pos - Separators(t), Separators(t));
    if pos == |json| || json[pos] != '"' { return None; }
    Suffix(json, pos, 1);
    var out := CopyValue(json, pos + 1, size);
    r := Some(out);
  }

  // ---- Timestamps ---------------------------------------------------------

  /** `strcmp`, as -1, 0 or 1. */
  function StrCmp(a: string, b: string): int {
    if a == "" then (if b == "" then 0 else -1)
    else if b == "" then 1
    else if a[0] != b[0] then (if a[0] < b[0] then -1 else 1)
    else StrCmp(a[1..], b[1..])
  }

  function CompareTimestamps(a: string, b: string): int {
    if a == "" then -1 else if b == "" then 1 else StrCmp(a, b)
  }

  // ---- Objects ------------------------------------------------------------

  /** How far an object reaches, from inside it at the given depth of braces. */
  function ObjectLen(t: string, depth: nat): (n: nat)
    ensures n <= |t|
    decreases |t|
  {
    if t == "" || depth == 0 then 0
    else if t[0] == '{' then 1 + ObjectLen(t[1..], depth + 1)
    else if t[0] == '}' then 1 + ObjectLen(t[1..], depth - 1)
    else if t[0] == '"' then
      var n := 1 + StringLen(t[1..]);
      if n == |t| then n else n + 1 + ObjectLen(t[n + 1..], depth)
    else 1 + ObjectLen(t[1..], depth)
  }

  /** The inner loop: to the closing quote or the end. */
  method SkipString(json: string, start: nat) returns (pos: nat)
    requires start <= |json|
    ensures pos == start + StringLen(json[start..])
  {
    pos := start;
    while pos < |json| && json[pos] != '"'
      invariant start <= pos <= |json| && pos + StringLen(json[pos..]) == start + StringLen(json[start..])
    {
      ghost var p := pos;
      if json[pos] == '\\' && pos + 1 < |json| { pos := pos + 1; }
      pos := pos + 1;
      assert json[p..][pos - p..] == json[pos..];
    }
  }

  /** The length of a brace, a whole string, or one other character at the front. */
  ghost function TokenLen(t: string): (n: nat)
    requires t != ""
    ensures 0 < n <= |t|
  {
    if t[0] != '"' then 1
    else if 1 + StringLen(t[1..]) == |t| then |t| else 2 + StringLen(t[1..])
  }

  lemma TokenIs(t: string, d: nat)
    requires t != "" && d > 0
    ensures ObjectLen(t, d) == TokenLen(t) + ObjectLen(t[TokenLen(t)..], if t[0] == '{' then d + 1 else if t[0] == '}' then d - 1 else d)
  {
    hide StringLen;
  }

  /** One turn of the outer loop: a brace, a whole string, or one other character. */
  method SkipToken(json: string, start: nat, d: nat) returns (pos: nat, depth: nat)
    requires start < |json| && d > 0
    ensures start < pos <= |json|
    ensures pos + ObjectLen(json[pos..], depth) == start + ObjectLen(json[start..], d)
  {
    hide StringLen, ObjectLen;
    TokenIs(json[start..], d);
    pos, depth := start, d;
    if json[pos] == '{' {
      depth := depth + 1;
    } else if json[pos] == '}' {
      depth := depth - 1;
    } else if json[pos] == '"' {
      Suffix(json, start, 1);
      pos := SkipString(json, pos + 1);
    }
    if pos < |json| { pos := pos + 1; }
    Suffix(json, start, pos - start);
  }

  method SkipObject(json: string, start: nat) returns (pos: nat)
    requires start <= |json|
    ensures pos == start + ObjectLen(json[start..], 1)
  {
    pos := start;
    var depth: nat := 1;
    while pos < |json| && depth > 0
      invariant start <= pos <= |json| && pos + ObjectLen(json[pos..], depth) == start + ObjectLen(json[start..], 1)
      decreases |json| - pos
    {
      pos, depth := SkipToken(json, pos, depth);
    }
  }

  /** Blanks and a closing bracket in front. */
  predicate ClosesHere(t: string) {
    Blanks(t) < |t| && t[Blanks(t)] == ']'
  }

  /** The release starting at the text has, in its first `n` characters, an empty list of assets. */
  predicate NoAssets(t: string, n: nat) {
    var k := FirstFrom(t, Quoted("assets"), 0);
    0 <= k < n && k <= |t| &&
    var m := FirstFrom(t[k..], "[", 0);
    m >= 0 && k + m < n && m < |t[k..]| && ClosesHere(t[k..][m + 1..])
  }

  method EmptyAssets(json: string, start: nat, pos: nat) returns (r: bool)
    requires start <= pos <= |json|
    ensures r <==> NoAssets(json[start..], pos - start)
  {
    hide Blanks, FirstFrom, Quoted;
    var t := json[start..];
    var found := FirstFrom(t, Quoted("assets"), 0);
    if found == -1 || start + found >= pos { return false; }
    var bracket := FirstFrom(t[found..], "[", 0);
    if bracket == -1 || start + found + bracket >= pos { return false; }
    var check := start + found + bracket + 1;
    ghost var rest := t[found..][bracket + 1..];
    assert rest == json[check..];
    check := SkipBlanks(json, check);
    assert rest[Blanks(rest)..] == json[check..];
    r := check < |json| && json[check] == ']';
  }

  // ---- The scan -----------------------------------------------------------

  datatype Choice = Choice(tag: string, published: string)

  predicate Wanted(pattern: string, tag: string) {
    pattern == "" || Matches(pattern, tag)
  }

  function Published(t: string): string {
    var p := FindString(t, "published_at", TIME_SIZE);
    if p.Some? then p.value else ""
  }

  /** The better of the choice so far and the release in the first `n` characters. */
  function Consider(t: string, n: nat, pattern: string, best: Choice): Choice {
    var tag := FindString(t, "tag_name", TAG_SIZE);
    if tag.None? || !Wanted(pattern, tag.value) || NoAssets(t, n) then best
    else if CompareTimestamps(Published(t), best.published) > 0 then Choice(tag.value, Published(t))
    else best
  }

  /** Up to the next opening brace. */
  function ToBrace(t: string): (n: nat)
    ensures n <= |t| && (n < |t| ==> t[n] == '{')
  {
    if t == "" || t[0] == '{' then 0 else 1 + ToBrace(t[1..])
  }

  /** Where the object at the front ends. */
  function ObjectEnd(t: string): (n: nat)
    requires t != ""
    ensures 0 < n <= |t|
  {
    1 + ObjectLen(t[1..], 1)
  }

  /** The best choice after the rest of the text. */
  function Scan(t: string, pattern: string, best: Choice): Choice
    decreases |t|
  {
    var o := t[ToBrace(t)..];
    if o == "" then best
    else Scan(o[ObjectEnd(o)..], pattern, Consider(o, ObjectEnd(o), pattern, best))
  }

  function Parse(json: string, pattern: string, tagSize: nat): Option<string>
    requires tagSize > 0
  {
    var t := json[Blanks(json)..];
    if t == "" || t[0] != '[' then None
    else
      var best := Scan(t[1..], pattern, Choice("", "")).tag;
      if best == "" then None else Some(if |best| < tagSize then best else best[..tagSize - 1])
  }

  method ConsiderRelease(json: string, start: nat, pos: nat, pattern: string, best: Choice) returns (r: Choice)
    requires start <= pos <= |json|
    ensures r == Consider(json[start..], pos - start, pattern, best)
  {
    hide FindString, NoAssets, CompareTimestamps;
    r := best;
    var tag := JsonFindString(json, start, "tag_name", TAG_SIZE);
    if tag.Some? {
      var wanted := pattern == "";
      if !wanted { wanted := Glob(pattern, tag.value); }
      if wanted {
        var empty := EmptyAssets(json, start, pos);
        if empty { return; }
        var found := JsonFindString(json, start, "published_at", TIME_SIZE);
        var published := if found.Some? then found.value else "";
        if CompareTimestamps(published, best.published) > 0 {
          r := Choice(tag.value, published);
        }
      }
    }
  }

  lemma ScanStep(t: string, pattern: string, best: Choice)
    ensures var o := t[ToBrace(t)..];
      Scan(t, pattern, best) == if o == "" then best else Scan(o[ObjectEnd(o)..], pattern, Consider(o, ObjectEnd(o), pattern, best))
  {
  }

  lemma ScanNothing(t: string, pattern: string, best: Choice)
    requires t == ""
    ensures Scan(t, pattern, best) == best
  {
    hide Consider, ObjectEnd;
  }

  method FindBrace(json: string, start: nat) returns (pos: nat)
    requires start <= |json|
    ensures pos == start + ToBrace(json[start..])
  {
    pos := start;
    while pos < |json| && json[pos] != '{'
      invariant start <= pos <= |json| && pos + ToBrace(json[pos..]) == start + ToBrace(json[start..])
    {
      assert json[pos..][1..] == json[pos + 1..];
      pos := pos + 1;
    }
  }

  /** One turn of the loop over the releases. */
  method NextRelease(json: string, start: nat, pattern: string, best: Choice) returns (pos: nat, next: Choice)
    requires start < |json|
    ensures start < pos <= |json|
    ensures Scan(json[pos..], pattern, next) == Scan(json[start..], pattern, best)
  {
    hide Consider, ToBrace, ObjectLen, Scan;
    ghost var t := json[start..];
    ScanStep(t, pattern, best);
    Suffix(json, start, ToBrace(t));
    var objStart := FindBrace(json, start);
    if objStart == |json| {
      ScanStep(json[objStart..], pattern, best);
      return objStart, best;
    }
    ghost var o := json[objStart..];
    Suffix(json, objStart, 1);
    pos := SkipObject(json, objStart + 1);
    Suffix(json, objStart, ObjectEnd(o));
    next := ConsiderRelease(json, objStart, pos, pattern, best);
  }

  method ParseGithubReleases(json: string, pattern: string, tagSize: nat) returns (r: Option<string>)
    requires tagSize > 0
    ensures r == Parse(json, pattern, tagSize)
  {
    hide Blanks, Scan;
    assert json[0..] == json;
    var pos := SkipBlanks(json, 0);
    if pos == |json| || json[pos] != '[' { return None; }
    Suffix(json, pos, 1);
    pos := pos + 1;
    var best := Choice("", "");
    ghost var all := Scan(json[pos..], pattern, best);
    while pos < |json|
      invariant pos <= |json| && Scan(json[pos..], pattern, best) == all
    {
      pos, best := NextRelease(json, pos, pattern, best);
    }
    ScanNothing(json[pos..], pattern, best);
    r := if best.tag == "" then None else Some(if |best.tag| < tagSize then best.tag else best.tag[..tagSize - 1]);
  }
}
