/** The JavaScript string primitives the runtime relies on, stated over
    `seq<char>`: the whitespace class of `trim()` and `/\s+/`, the word class
    `\w`, `split` on a single character, `includes`, `startsWith`, and decimal
    rendering of counters (`` `req_${n}` ``, `` `conn_${n}` ``). */
module Text {
  import opened Wrappers

  /** JavaScript's `\s` (WhiteSpace and LineTerminator), which is also what
      `trim()` strips. */
  predicate IsSpace(c: char) {
    || c == ' ' || c == '\t' || c == '\n' || c == '\r'
    || c == '\U{000B}' || c == '\U{000C}' || c == '\U{00A0}' || c == '\U{1680}'
    || ('\U{2000}' <= c <= '\U{200A}') || c == '\U{2028}' || c == '\U{2029}'
    || c == '\U{202F}' || c == '\U{205F}' || c == '\U{3000}' || c == '\U{FEFF}'
  }

  predicate IsDigit(c: char) {
    '0' <= c <= '9'
  }

  /** JavaScript's `\w`. */
  predicate IsWordChar(c: char) {
    ('a' <= c <= 'z') || ('A' <= c <= 'Z') || IsDigit(c) || c == '_'
  }

  predicate AllDigits(s: string) {
    forall i :: 0 <= i < |s| ==> IsDigit(s[i])
  }

  predicate AllWordChars(s: string) {
    forall i :: 0 <= i < |s| ==> IsWordChar(s[i])
  }

  predicate NoSpace(s: string) {
    forall i :: 0 <= i < |s| ==> !IsSpace(s[i])
  }

  /** JavaScript truthiness of a string: only the empty string is falsy. */
  predicate Truthy(s: string) {
    s != []
  }

  /** `x || d` for a value that is either `undefined` or a string. */
  function OrElse(x: Option<string>, d: string): (r: string)
    ensures x.Some? && x.value != [] ==> r == x.value
    ensures x.None? || x.value == [] ==> r == d
  {
    if x.Some? && Truthy(x.value) then x.value else d
  }

  /** `s.startsWith(p)`. */
  predicate StartsWith(s: string, p: string) {
    |p| <= |s| && s[..|p|] == p
  }

  /** `s.includes(sub)`. */
  predicate Contains(s: string, sub: string)
    decreases |s|
  {
    StartsWith(s, sub) || (s != [] && Contains(s[1..], sub))
  }

  /** A string never contains a longer one. */
  lemma {:induction false} ShorterNotContains(s: string, sub: string)
    requires |s| < |sub|
    ensures !Contains(s, sub)
    decreases |s|
  {
    if s != [] {
      ShorterNotContains(s[1..], sub);
    }
  }

  /** Length of the longest prefix of `s` with no whitespace. */
  function RunLength(s: string): (k: nat)
    ensures k <= |s|
    ensures NoSpace(s[..k])
    ensures k < |s| ==> IsSpace(s[k])
  {
    if s == [] || IsSpace(s[0]) then 0
    else
      var k := 1 + RunLength(s[1..]);
      assert s[..k] == [s[0]] + s[1..][..k - 1];
      k
  }

  /** The non-empty tokens of `s` between runs of whitespace, in order: what
      `s.trim().split(/\s+/)` returns whenever `s` holds some non-space
      character. */
  function Words(s: string): (ws: seq<string>)
    ensures forall i :: 0 <= i < |ws| ==> ws[i] != [] && NoSpace(ws[i])
    decreases |s|
  {
    if s == [] then []
    else if IsSpace(s[0]) then Words(s[1..])
    else
      var k := RunLength(s);
      [s[..k]] + Words(s[k..])
  }

  /** `s.trim().split(/\s+/)` exactly: a blank string gives the one-element
      array `[""]`. */
  function SplitWhitespace(s: string): (parts: seq<string>)
    ensures |parts| >= 1
  {
    var ws := Words(s);
    if ws == [] then [[]] else ws
  }

  /** Concatenation of a list of strings. */
  function Concat(ss: seq<string>): string {
    if ss == [] then [] else ss[0] + Concat(ss[1..])
  }

  /** `s` with every whitespace character deleted. */
  function StripSpaces(s: string): string {
    if s == [] then []
    else if IsSpace(s[0]) then StripSpaces(s[1..])
    else [s[0]] + StripSpaces(s[1..])
  }

  lemma {:induction false} StripSpacesAppend(a: string, b: string)
    ensures StripSpaces(a + b) == StripSpaces(a) + StripSpaces(b)
    decreases |a|
  {
    if a == [] {
      assert a + b == b;
    } else {
      assert (a + b)[1..] == a[1..] + b;
      StripSpacesAppend(a[1..], b);
    }
  }

  lemma {:induction false} StripSpacesOfNoSpace(a: string)
    requires NoSpace(a)
    ensures StripSpaces(a) == a
    decreases |a|
  {
    if a != [] {
      StripSpacesOfNoSpace(a[1..]);
    }
  }

  /** Tokenising loses exactly the whitespace: gluing the words back together
      gives the input with its whitespace removed, and no word is empty. */
  lemma {:induction false} WordsKeepEveryNonSpace(s: string)
    ensures Concat(Words(s)) == StripSpaces(s)
    decreases |s|
  {
    if s == [] {
    } else if IsSpace(s[0]) {
      WordsKeepEveryNonSpace(s[1..]);
    } else {
      var k := RunLength(s);
      assert s == s[..k] + s[k..];
      WordsKeepEveryNonSpace(s[k..]);
      StripSpacesAppend(s[..k], s[k..]);
      StripSpacesOfNoSpace(s[..k]);
      var ws := Words(s);
      assert ws == [s[..k]] + Words(s[k..]);
      assert ws[1..] == Words(s[k..]);
    }
  }

  lemma {:induction false} RunLengthOfToken(t: string, rest: string)
    requires NoSpace(t)
    requires rest == [] || IsSpace(rest[0])
    ensures RunLength(t + rest) == |t|
    decreases |t|
  {
    if t != [] {
      assert (t + rest)[1..] == t[1..] + rest;
      RunLengthOfToken(t[1..], rest);
    } else {
      assert t + rest == rest;
    }
  }

  /** Joining non-empty space-free tokens with single spaces and tokenising
      the result gives the tokens back. */
  lemma {:induction false} WordsOfJoin(tokens: seq<string>)
    requires |tokens| >= 1
    requires forall i :: 0 <= i < |tokens| ==> tokens[i] != [] && NoSpace(tokens[i])
    ensures Words(Join(tokens, ' ')) == tokens
    decreases |tokens|
  {
    var t := tokens[0];
    if |tokens| == 1 {
      RunLengthOfToken(t, []);
      assert t + [] == t;
      assert t[|t|..] == [];
    } else {
      var rest := Join(tokens[1..], ' ');
      var s := t + [' '] + rest;
      assert s == t + ([' '] + rest);
      RunLengthOfToken(t, [' '] + rest);
      assert s[..|t|] == t;
      assert s[|t|..] == [' '] + rest;
      assert ([' '] + rest)[1..] == rest;
      WordsOfJoin(tokens[1..]);
    }
  }

  /** Index of the first occurrence of `c`. */
  function IndexOf(s: string, c: char): (i: nat)
    requires c in s
    ensures i < |s| && s[i] == c && c !in s[..i]
  {
    if s[0] == c then 0
    else
      var i := 1 + IndexOf(s[1..], c);
      assert s[..i] == [s[0]] + s[1..][..i - 1];
      i
  }

  /** `s.split(c)` for a one-character separator: always at least one part,
      no part holds the separator. */
  function SplitOn(s: string, c: char): (parts: seq<string>)
    ensures |parts| >= 1
    ensures forall i :: 0 <= i < |parts| ==> c !in parts[i]
    decreases |s|
  {
    if c !in s then [s]
    else
      var i := IndexOf(s, c);
      [s[..i]] + SplitOn(s[i + 1..], c)
  }

  /** `parts.join(c)`. */
  function Join(parts: seq<string>, c: char): string
    requires |parts| >= 1
  {
    if |parts| == 1 then parts[0] else parts[0] + [c] + Join(parts[1..], c)
  }

  /** Number of occurrences of `c` in `s`. */
  function Count(s: string, c: char): nat {
    if s == [] then 0 else (if s[0] == c then 1 else 0) + Count(s[1..], c)
  }

  lemma {:induction false} CountAppend(a: string, b: string, c: char)
    ensures Count(a + b, c) == Count(a, c) + Count(b, c)
    decreases |a|
  {
    if a == [] {
      assert a + b == b;
    } else {
      assert (a + b)[1..] == a[1..] + b;
      CountAppend(a[1..], b, c);
    }
  }

  lemma {:induction false} CountAbsent(a: string, c: char)
    requires c !in a
    ensures Count(a, c) == 0
    decreases |a|
  {
    if a != [] {
      CountAbsent(a[1..], c);
    }
  }

  /** `split` and `join` on the same separator are inverse, and the number of
      parts is one more than the number of separators. */
  lemma {:induction false} SplitJoinRoundTrip(s: string, c: char)
    ensures Join(SplitOn(s, c), c) == s
    ensures |SplitOn(s, c)| == Count(s, c) + 1
    decreases |s|
  {
    if c !in s {
      CountAbsent(s, c);
    } else {
      var i := IndexOf(s, c);
      SplitJoinRoundTrip(s[i + 1..], c);
      var parts := SplitOn(s, c);
      assert parts[1..] == SplitOn(s[i + 1..], c);
      assert s == s[..i] + [c] + s[i + 1..];
      CountAppend(s[..i] + [c], s[i + 1..], c);
      CountAppend(s[..i], [c], c);
      CountAbsent(s[..i], c);
    }
  }

  /** `join` then `split` on a separator no part holds gives the parts back. */
  lemma {:induction false} SplitOnJoin(parts: seq<string>, c: char)
    requires |parts| >= 1
    requires forall i :: 0 <= i < |parts| ==> c !in parts[i]
    ensures SplitOn(Join(parts, c), c) == parts
    decreases |parts|
  {
    if |parts| > 1 {
      var rest := Join(parts[1..], c);
      FirstSeparator(parts[0], c, rest);
      SplitOnJoin(parts[1..], c);
      assert parts == [parts[0]] + parts[1..];
    }
  }

  /** The first separator of `a + [c] + rest` is the one after `a`. */
  lemma FirstSeparator(a: string, c: char, rest: string)
    requires c !in a
    ensures var s := a + [c] + rest;
      && c in s && IndexOf(s, c) == |a| && s[..|a|] == a && s[|a| + 1..] == rest
  {
    var s := a + [c] + rest;
    assert s[|a|] == c;
    assert s[..|a|] == a;
    var i := IndexOf(s, c);
    assert i == |a|;
    assert s[i + 1..] == rest;
  }

  /** `const [key, value] = part.split(':')`: the text before the first colon,
      and the text between the first and the second colon, or `undefined`
      when there is no colon. */
  function KeyValue(part: string): (kv: (string, Option<string>))
    ensures ':' !in part ==> kv == (part, None)
    ensures ':' in part ==>
      var i := IndexOf(part, ':');
      && kv.0 == part[..i]
      && kv.1.Some?
      && StartsWith(part[i + 1..], kv.1.value)
      && ':' !in kv.1.value
      && (i + 1 + |kv.1.value| == |part| || part[i + 1 + |kv.1.value|] == ':')
  {
    var ps := SplitOn(part, ':');
    if |ps| == 1 then (ps[0], None)
    else
      var i := IndexOf(part, ':');
      var rest := part[i + 1..];
      assert ps[1..] == SplitOn(rest, ':');
      if ':' in rest then
        var j := IndexOf(rest, ':');
        assert ps[1] == rest[..j];
        (ps[0], Some(ps[1]))
      else
        (ps[0], Some(ps[1]))
  }

  /** `(k + ":" + v).split(':')` destructures to `k` and `v` when neither
      holds a colon. */
  lemma KeyValueOfPair(k: string, v: string)
    requires ':' !in k && ':' !in v
    ensures KeyValue(k + [':'] + v) == (k, Some(v))
  {
    var part := k + [':'] + v;
    assert part[|k|] == ':';
    assert ':' in part;
    var i := IndexOf(part, ':');
    assert i == |k|;
    assert part[i + 1..] == v;
    assert part[..i] == k;
    var kv := KeyValue(part);
    assert i + 1 + |kv.1.value| == |part|;
    assert kv.1.value == v[..|kv.1.value|];
    assert |kv.1.value| == |v| && v[..|v|] == v;
  }

  function DigitChar(d: nat): char
    requires d < 10
  {
    "0123456789"[d]
  }

  function DigitValue(c: char): nat
    requires IsDigit(c)
  {
    (c as int - '0' as int) as nat
  }

  /** The value of a string of decimal digits (`parseInt` on `\d*`). */
  function DigitsValue(s: string): nat
    requires AllDigits(s)
  {
    if s == [] then 0 else DigitsValue(s[..|s| - 1]) * 10 + DigitValue(s[|s| - 1])
  }

  /** Decimal rendering of a natural number, as a template literal does it. */
  function NatToString(n: nat): (s: string)
    ensures |s| >= 1 && AllDigits(s)
  {
    if n < 10 then [DigitChar(n)] else NatToString(n / 10) + [DigitChar(n % 10)]
  }

  /** Reading a rendered number back gives the number. */
  lemma {:induction false} NatToStringValue(n: nat)
    ensures DigitsValue(NatToString(n)) == n
  {
    if n >= 10 {
      NatToStringValue(n / 10);
      var s := NatToString(n);
      assert s[..|s| - 1] == NatToString(n / 10);
    }
  }

  /** Distinct numbers render to distinct strings. */
  lemma NatToStringInjective(a: nat, b: nat)
    ensures NatToString(a) == NatToString(b) ==> a == b
  {
    NatToStringValue(a);
    NatToStringValue(b);
  }

  /** Distinct numbers give distinct identifiers under a common prefix, as in
      `` `req_${n}` `` and `` `conn_${n}` ``. */
  lemma PrefixedNumberInjective(p: string, a: nat, b: nat)
    ensures p + NatToString(a) == p + NatToString(b) ==> a == b
  {
    if p + NatToString(a) == p + NatToString(b) {
      assert (p + NatToString(a))[|p|..] == NatToString(a);
      assert (p + NatToString(b))[|p|..] == NatToString(b);
      NatToStringInjective(a, b);
    }
  }

  // ----- keyed tokens -----

  /** Index of the last token whose key is `key`, or -1. */
  function LastWith(parts: seq<string>, key: string): (i: int)
    ensures -1 <= i < |parts|
    ensures i >= 0 ==> KeyValue(parts[i]).0 == key
    ensures forall j :: i < j < |parts| ==> KeyValue(parts[j]).0 != key
  {
    if parts == [] then -1
    else if KeyValue(parts[|parts| - 1]).0 == key then |parts| - 1
    else LastWith(parts[..|parts| - 1], key)
  }

  /** The value part of the last token with key `key`: `None` when no token
      has that key, `Some(undefined)` (`Some(None)`) for a bare `key`. */
  function LastValue(parts: seq<string>, key: string): Option<Option<string>> {
    var i := LastWith(parts, key);
    if i < 0 then None else Some(KeyValue(parts[i]).1)
  }

  /** When exactly one token carries `key`, that token's value is the one
      that counts. */
  lemma LastValueOfUniqueKey(parts: seq<string>, i: int, key: string)
    requires 0 <= i < |parts| && KeyValue(parts[i]).0 == key
    requires forall j :: 0 <= j < |parts| && j != i ==> KeyValue(parts[j]).0 != key
    ensures LastValue(parts, key) == Some(KeyValue(parts[i]).1)
  {
  }

  lemma LastValueOfAbsentKey(parts: seq<string>, key: string)
    requires forall j :: 0 <= j < |parts| ==> KeyValue(parts[j]).0 != key
    ensures LastValue(parts, key) == None
  {
  }

  /** Appending tokens: the later tokens decide a key when they carry it. */
  lemma {:induction false} LastValueAppend(a: seq<string>, b: seq<string>, key: string)
    ensures LastValue(a + b, key) == if LastValue(b, key).Some? then LastValue(b, key) else LastValue(a, key)
    decreases |b|
  {
    if b == [] {
      assert a + b == a;
    } else {
      var b' := b[..|b| - 1];
      assert (a + b)[..|a + b| - 1] == a + b';
      assert (a + b)[|a + b| - 1] == b[|b| - 1];
      LastValueAppend(a, b', key);
    }
  }

  lemma SingleTokenValue(key: string, v: string, k: string)
    requires ':' !in key && ':' !in v
    ensures LastValue([key + ":" + v], k) == if k == key then Some(Some(v)) else None
  {
    KeyValueOfPair(key, v);
    assert key + ":" + v == key + [':'] + v;
    assert [key + ":" + v][..0] == [];
  }
}
