/**
 * The handful of JavaScript string primitives the handlers rely on, written
 * out over `seq<char>`: `trim()`, the regular-expression class `\s`,
 * `toLowerCase()` (ASCII letters only), `includes`, `split` on single
 * characters and `join`.
 */
module JsString {
  import Collections

  /** ECMAScript WhiteSpace and LineTerminator code points: exactly the
      characters `String.prototype.trim` removes and `\s` matches. */
  predicate IsSpace(c: char) {
    || c == '\t' || c == '\n' || c == '\U{000B}' || c == '\U{000C}' || c == '\r'
    || c == ' ' || c == '\U{00A0}' || c == '\U{1680}'
    || ('\U{2000}' <= c <= '\U{200A}')
    || c == '\U{2028}' || c == '\U{2029}' || c == '\U{202F}' || c == '\U{205F}'
    || c == '\U{3000}' || c == '\U{FEFF}'
  }

  /** No leading and no trailing white space. */
  predicate IsTrimmed(s: string) {
    s == [] || (!IsSpace(s[0]) && !IsSpace(s[|s| - 1]))
  }

  predicate IsBlank(s: string) {
    forall i :: 0 <= i < |s| ==> IsSpace(s[i])
  }

  function TrimStart(s: string): string {
    if |s| > 0 && IsSpace(s[0]) then TrimStart(s[1..]) else s
  }

  lemma {:induction false} TrimStartFacts(s: string)
    ensures |TrimStart(s)| <= |s| && TrimStart(s) == s[|s| - |TrimStart(s)|..]
    ensures TrimStart(s) == [] || !IsSpace(TrimStart(s)[0])
    ensures forall i :: 0 <= i < |s| - |TrimStart(s)| ==> IsSpace(s[i])
  {
    if |s| > 0 && IsSpace(s[0]) {
      TrimStartFacts(s[1..]);
    }
  }

  function TrimEnd(s: string): string {
    if |s| > 0 && IsSpace(s[|s| - 1]) then TrimEnd(s[..|s| - 1]) else s
  }

  lemma {:induction false} TrimEndFacts(s: string)
    ensures |TrimEnd(s)| <= |s| && TrimEnd(s) == s[..|TrimEnd(s)|]
    ensures TrimEnd(s) == [] || !IsSpace(TrimEnd(s)[|TrimEnd(s)| - 1])
    ensures forall i :: |TrimEnd(s)| <= i < |s| ==> IsSpace(s[i])
  {
    if |s| > 0 && IsSpace(s[|s| - 1]) {
      TrimEndFacts(s[..|s| - 1]);
    }
  }

  lemma TrimBothFacts(s: string)
    ensures IsTrimmed(TrimEnd(TrimStart(s)))
    ensures |TrimEnd(TrimStart(s))| <= |s|
  {
    var a := TrimStart(s);
    var r := TrimEnd(a);
    TrimStartFacts(s);
    TrimEndFacts(a);
    if r != [] {
      assert r[0] == a[0];
    }
  }

  lemma TrimKeepsChars(s: string)
    ensures forall c :: c in TrimEnd(TrimStart(s)) ==> c in s
  {
    var a := TrimStart(s);
    var r := TrimEnd(a);
    TrimStartFacts(s);
    TrimEndFacts(a);
    forall c | c in r ensures c in s {
      var i :| 0 <= i < |r| && r[i] == c;
      assert a[i] == c;
      assert s[|s| - |a| + i] == c;
    }
  }

  lemma TrimBlankFacts(s: string)
    ensures TrimEnd(TrimStart(s)) == [] <==> IsBlank(s)
  {
    var a := TrimStart(s);
    TrimStartFacts(s);
    TrimEndFacts(a);
    if a != [] {
      assert !IsSpace(a[0]) && a[0] == s[|s| - |a|];
      assert !IsBlank(s);
    }
  }

  /** Trimming drops white space only: every other character keeps its
      number of occurrences. */
  lemma TrimKeepsCounts(s: string)
    ensures forall c :: !IsSpace(c) ==> multiset(TrimEnd(TrimStart(s)))[c] == multiset(s)[c]
  {
    TrimStartKeepsCounts(s);
    TrimEndKeepsCounts(TrimStart(s));
  }

  lemma TrimStartKeepsCounts(s: string)
    ensures forall c :: !IsSpace(c) ==> multiset(TrimStart(s))[c] == multiset(s)[c]
  {
    var a := TrimStart(s);
    TrimStartFacts(s);
    var head := s[..|s| - |a|];
    assert s == head + a;
    assert IsBlank(head) by {
      forall i | 0 <= i < |head| ensures IsSpace(head[i]) { assert head[i] == s[i]; }
    }
    BlankHasNoOtherChars(head);
  }

  lemma TrimEndKeepsCounts(a: string)
    ensures forall c :: !IsSpace(c) ==> multiset(TrimEnd(a))[c] == multiset(a)[c]
  {
    var r := TrimEnd(a);
    TrimEndFacts(a);
    var tail := a[|r|..];
    assert a == r + tail;
    assert IsBlank(tail) by {
      forall i | 0 <= i < |tail| ensures IsSpace(tail[i]) { assert tail[i] == a[|r| + i]; }
    }
    BlankHasNoOtherChars(tail);
  }

  lemma BlankHasNoOtherChars(p: string)
    requires IsBlank(p)
    ensures forall c :: !IsSpace(c) ==> multiset(p)[c] == 0
  {
  }

  /** `s.trim()` */
  function Trim(s: string): (r: string)
    ensures IsTrimmed(r)
    ensures r == [] <==> IsBlank(s)
    ensures |r| <= |s|
    ensures forall c :: c in r ==> c in s
  {
    TrimBothFacts(s);
    TrimKeepsChars(s);
    TrimBlankFacts(s);
    TrimEnd(TrimStart(s))
  }

  lemma {:induction false} TrimStartSpaceSuffix(s: string, c: char)
    requires IsSpace(c) && !IsBlank(s)
    ensures TrimStart(s + [c]) == TrimStart(s) + [c]
  {
    assert (s + [c])[0] == s[0];
    if IsSpace(s[0]) {
      assert (s + [c])[1..] == s[1..] + [c];
      assert !IsBlank(s[1..]) by {
        var i :| 0 <= i < |s| && !IsSpace(s[i]);
        assert s[1..][i - 1] == s[i];
      }
      TrimStartSpaceSuffix(s[1..], c);
    }
  }

  lemma TrimStartBlank(s: string)
    requires IsBlank(s)
    ensures TrimStart(s) == []
  {
    TrimStartFacts(s);
  }

  /** Trailing white space does not change `trim()`. */
  lemma TrimSpaceSuffix(s: string, c: char)
    requires IsSpace(c)
    ensures Trim(s + [c]) == Trim(s)
  {
    if IsBlank(s) {
      assert IsBlank(s + [c]) by {
        assert forall i :: 0 <= i < |s| ==> (s + [c])[i] == s[i];
      }
    } else {
      TrimStartSpaceSuffix(s, c);
      var a := TrimStart(s);
      assert (a + [c])[..|a|] == a;
    }
  }

  lemma TrimOfTrimmed(s: string)
    requires IsTrimmed(s)
    ensures Trim(s) == s
  {
  }

  /** `s.replace(/\s/g, '')` */
  function RemoveSpaces(s: string): (r: string)
    ensures forall i :: 0 <= i < |r| ==> !IsSpace(r[i])
    ensures |r| <= |s|
    ensures Collections.IsSubsequence(r, s)
    ensures forall c :: multiset(r)[c] == if IsSpace(c) then 0 else multiset(s)[c]
  {
    if s == [] then []
    else
      assert s == [s[0]] + s[1..];
      var rest := RemoveSpaces(s[1..]);
      if IsSpace(s[0]) then
        assert rest == [] || rest[0] != s[0];
        rest
      else
        assert ([s[0]] + rest)[1..] == rest;
        [s[0]] + rest
  }

  /** `toLowerCase()` on ASCII letters; every other character is kept. */
  function LowerChar(c: char): char {
    if 'A' <= c <= 'Z' then (c as int - 'A' as int + 'a' as int) as char else c
  }

  function ToLower(s: string): (r: string)
    ensures |r| == |s|
    ensures forall i :: 0 <= i < |s| ==> r[i] == LowerChar(s[i])
  {
    if s == [] then [] else [LowerChar(s[0])] + ToLower(s[1..])
  }

  /** Removes every occurrence of the characters in `cs`, as a global
      regular-expression replace of a character class by the empty string. */
  function RemoveChars(s: string, cs: set<char>): (r: string)
    ensures forall i :: 0 <= i < |r| ==> r[i] !in cs
    ensures forall c :: c in s && c !in cs ==> c in r
    ensures forall c :: c in r ==> c in s
    ensures Collections.IsSubsequence(r, s)
    ensures forall c :: multiset(r)[c] == if c in cs then 0 else multiset(s)[c]
  {
    if s == [] then []
    else
      assert s == [s[0]] + s[1..];
      var rest := RemoveChars(s[1..], cs);
      if s[0] in cs then
        assert rest == [] || rest[0] != s[0];
        rest
      else
        assert ([s[0]] + rest)[1..] == rest;
        [s[0]] + rest
  }

  lemma RemoveCharsNoop(s: string, cs: set<char>)
    requires forall i :: 0 <= i < |s| ==> s[i] !in cs
    ensures RemoveChars(s, cs) == s
  {
    if s != [] { RemoveCharsNoop(s[1..], cs); }
  }

  /** `s.includes(t)` */
  predicate Contains(s: string, t: string) {
    exists i :: 0 <= i <= |s| && t <= s[i..]
  }

  lemma ContainsAt(s: string, t: string, i: nat)
    requires i <= |s| && t <= s[i..]
    ensures Contains(s, t)
  {
  }

  /** A text containing a non-empty `t` contains `t`'s first character. */
  lemma ContainsFirstChar(s: string, t: string)
    requires Contains(s, t) && t != []
    ensures t[0] in s
  {
    var i :| 0 <= i <= |s| && t <= s[i..];
    assert s[i..][0] == s[i];
  }

  /** `s.split(c)` for a set of single-character separators: the text between
      separators, including the empty pieces; always at least one piece. */
  function Split(s: string, seps: set<char>): (r: seq<string>)
    ensures |r| >= 1
    ensures forall k, i :: 0 <= k < |r| && 0 <= i < |r[k]| ==> r[k][i] !in seps
  {
    if s == [] then [[]]
    else if s[0] in seps then [[]] + Split(s[1..], seps)
    else
      var rest := Split(s[1..], seps);
      [[s[0]] + rest[0]] + rest[1..]
  }

  /** `parts.join(sep)` */
  function Join(parts: seq<string>, sep: string): (r: string)
    ensures parts == [] ==> r == []
  {
    if parts == [] then []
    else if |parts| == 1 then parts[0]
    else parts[0] + sep + Join(parts[1..], sep)
  }

  lemma {:induction false} JoinSplit(s: string, c: char)
    ensures Join(Split(s, {c}), [c]) == s
  {
    if s == [] {
    } else if s[0] == c {
      JoinSplit(s[1..], c);
      var rest := Split(s[1..], {c});
      assert Split(s, {c}) == [[]] + rest;
      assert Join([[]] + rest, [c]) == [] + [c] + Join(rest, [c]);
    } else {
      JoinSplit(s[1..], c);
      var rest := Split(s[1..], {c});
      var parts := [[s[0]] + rest[0]] + rest[1..];
      if |rest| == 1 {
        assert Join(parts, [c]) == [s[0]] + rest[0];
      } else {
        assert parts[1..] == rest[1..];
        assert Join(rest, [c]) == rest[0] + [c] + Join(rest[1..], [c]);
        assert Join(parts, [c]) == ([s[0]] + rest[0]) + [c] + Join(rest[1..], [c]);
        assert s == [s[0]] + s[1..];
      }
    }
  }

  /** A text with no separator is a single piece. */
  lemma {:induction false} SplitWithout(w: string, seps: set<char>)
    requires forall i :: 0 <= i < |w| ==> w[i] !in seps
    ensures Split(w, seps) == [w]
  {
    if w != [] {
      SplitWithout(w[1..], seps);
      assert [w[0]] + w[1..] == w;
    }
  }

  lemma {:induction false} SplitCount(s: string, seps: set<char>)
    ensures |Split(s, seps)| == CountIn(s, seps) + 1
  {
    if s != [] { SplitCount(s[1..], seps); }
  }

  function CountIn(s: string, cs: set<char>): nat {
    if s == [] then 0 else (if s[0] in cs then 1 else 0) + CountIn(s[1..], cs)
  }

  /** `text.replace(/^﻿/, '')` */
  function StripBom(s: string): (r: string)
    ensures |s| > 0 && s[0] == '\U{FEFF}' ==> r == s[1..]
    ensures !(|s| > 0 && s[0] == '\U{FEFF}') ==> r == s
  {
    if |s| > 0 && s[0] == '\U{FEFF}' then s[1..] else s
  }

  /** A line with one trailing CR removed, if it has one. */
  function DropCr(l: string): string {
    if |l| > 0 && l[|l| - 1] == '\r' then l[..|l| - 1] else l
  }

  lemma DropCrCons(c: char, l: string)
    requires l != []
    ensures DropCr([c] + l) == [c] + DropCr(l)
  {
    assert ([c] + l)[|l|] == l[|l| - 1];
    assert ([c] + l)[..|l|] == [c] + l[..|l| - 1];
  }

  /** `r` has the lines of `s`: as many, each line that a line feed ends
      with one trailing CR dropped, and the last line as it is. */
  predicate LinesAgree(r: string, s: string) {
    PiecesAgree(Split(r, {'\n'}), Split(s, {'\n'}))
  }

  /** The pieces `a` are the pieces `b` with one trailing CR dropped from
      every piece but the last. */
  predicate PiecesAgree(a: seq<string>, b: seq<string>) {
    && |a| == |b| >= 1
    && (forall k :: 0 <= k < |b| - 1 ==> a[k] == DropCr(b[k]))
    && a[|b| - 1] == b[|b| - 1]
  }

  /** A new first piece that is empty, or a lone CR, on the one side and
      empty on the other. */
  lemma PiecesAgreeBreak(a: seq<string>, b: seq<string>, x: string)
    requires PiecesAgree(a, b) && DropCr(x) == []
    ensures PiecesAgree([[]] + a, [x] + b)
  {
    var a', b' := [[]] + a, [x] + b;
    forall k | 0 <= k < |b'| - 1 ensures a'[k] == DropCr(b'[k]) {
      if k > 0 { assert a'[k] == a[k - 1] && b'[k] == b[k - 1]; }
    }
    assert a'[|b'| - 1] == a[|b| - 1] && b'[|b'| - 1] == b[|b| - 1];
  }

  /** A character that is neither LF nor a CR entering a line's end joins
      the first piece on both sides. */
  lemma PiecesAgreeJoin(a: seq<string>, b: seq<string>, c: char)
    requires PiecesAgree(a, b)
    requires |b| > 1 && b[0] == [] ==> c != '\r'
    ensures PiecesAgree([[c] + a[0]] + a[1..], [[c] + b[0]] + b[1..])
  {
    var a', b' := [[c] + a[0]] + a[1..], [[c] + b[0]] + b[1..];
    if |b| > 1 {
      if b[0] == [] {
        assert DropCr([c]) == [c];
        assert [c] + b[0] == [c];
      } else {
        DropCrCons(c, b[0]);
      }
      forall k | 0 <= k < |b'| - 1 ensures a'[k] == DropCr(b'[k]) {
        if k > 0 { assert a'[k] == a[k] && b'[k] == b[k]; }
      }
      assert a'[|b'| - 1] == a[|b| - 1] && b'[|b'| - 1] == b[|b| - 1];
    }
  }

  lemma SplitConsSep(c: char, t: string, seps: set<char>)
    requires c in seps
    ensures Split([c] + t, seps) == [[]] + Split(t, seps)
  {
    assert ([c] + t)[1..] == t;
  }

  lemma SplitConsPlain(c: char, t: string, seps: set<char>)
    requires c !in seps
    ensures Split([c] + t, seps) == [[c] + Split(t, seps)[0]] + Split(t, seps)[1..]
  {
    assert ([c] + t)[1..] == t;
  }

  /** An empty first line followed by more lines means a leading LF. */
  lemma EmptyFirstLine(t: string)
    requires |Split(t, {'\n'})| > 1 && Split(t, {'\n'})[0] == []
    ensures |t| > 0 && t[0] == '\n'
  {
  }

  lemma LinesAgreeCrLf(t: string, rt: string)
    requires LinesAgree(rt, t)
    ensures LinesAgree("\n" + rt, "\r\n" + t)
  {
    SplitConsSep('\n', t, {'\n'});
    SplitConsPlain('\r', ['\n'] + t, {'\n'});
    SplitConsSep('\n', rt, {'\n'});
    assert "\r\n" + t == ['\r'] + (['\n'] + t);
    assert ['\r'] + [] == ['\r'];
    PiecesAgreeBreak(Split(rt, {'\n'}), Split(t, {'\n'}), ['\r']);
  }

  lemma LinesAgreeCons(c: char, t: string, rt: string)
    requires LinesAgree(rt, t)
    requires !(c == '\r' && |t| > 0 && t[0] == '\n')
    ensures LinesAgree([c] + rt, [c] + t)
  {
    if c == '\n' {
      SplitConsSep(c, t, {'\n'});
      SplitConsSep(c, rt, {'\n'});
      PiecesAgreeBreak(Split(rt, {'\n'}), Split(t, {'\n'}), []);
    } else {
      SplitConsPlain(c, t, {'\n'});
      SplitConsPlain(c, rt, {'\n'});
      if |Split(t, {'\n'})| > 1 && Split(t, {'\n'})[0] == [] {
        EmptyFirstLine(t);
      }
      PiecesAgreeJoin(Split(rt, {'\n'}), Split(t, {'\n'}), c);
    }
  }

  /** `text.replace(/\r\n/g, '\n')`: every CR LF pair, scanned left to right,
      becomes a single LF. */
  function NormalizeNewlines(s: string): (r: string)
    ensures |r| <= |s|
    ensures CountIn(r, {'\n'}) == CountIn(s, {'\n'})
    ensures LinesAgree(r, s)
  {
    if |s| >= 2 && s[0] == '\r' && s[1] == '\n' then
      var t := s[2..];
      assert s[1..][1..] == t;
      assert s == "\r\n" + t;
      LinesAgreeCrLf(t, NormalizeNewlines(t));
      "\n" + NormalizeNewlines(t)
    else if s == [] then []
    else
      assert s == [s[0]] + s[1..];
      LinesAgreeCons(s[0], s[1..], NormalizeNewlines(s[1..]));
      [s[0]] + NormalizeNewlines(s[1..])
  }

  /** `lines.filter(l => l.trim().length > 0)` */
  function NonBlank(lines: seq<string>): (r: seq<string>)
    ensures |r| <= |lines|
    ensures forall k :: 0 <= k < |r| ==> !IsBlank(r[k])
    ensures forall l :: l in r <==> l in lines && !IsBlank(l)
    ensures Collections.IsSubsequence(r, lines)
    ensures forall l :: multiset(r)[l] == if IsBlank(l) then 0 else multiset(lines)[l]
  {
    if lines == [] then []
    else
      assert lines == [lines[0]] + lines[1..];
      var rest := NonBlank(lines[1..]);
      if IsBlank(lines[0]) then
        assert rest == [] || rest[0] != lines[0];
        rest
      else
        assert ([lines[0]] + rest)[1..] == rest;
        [lines[0]] + rest
  }

  /** `s.split(sep).map(s => s.trim())` */
  function TrimAll(parts: seq<string>): (r: seq<string>)
    ensures |r| == |parts|
    ensures forall k :: 0 <= k < |r| ==> r[k] == Trim(parts[k])
    ensures forall k :: 0 <= k < |r| ==> IsTrimmed(r[k])
  {
    if parts == [] then [] else [Trim(parts[0])] + TrimAll(parts[1..])
  }

  /** `parts.filter(p => p !== "")` */
  function NonEmpty(parts: seq<string>): (r: seq<string>)
    ensures |r| <= |parts|
    ensures forall k :: 0 <= k < |r| ==> r[k] != []
    ensures forall p :: p in r <==> p in parts && p != []
    ensures Collections.IsSubsequence(r, parts)
    ensures forall p :: multiset(r)[p] == if p == [] then 0 else multiset(parts)[p]
  {
    if parts == [] then []
    else
      assert parts == [parts[0]] + parts[1..];
      var rest := NonEmpty(parts[1..]);
      if parts[0] == [] then
        assert rest == [] || rest[0] != parts[0];
        rest
      else
        assert ([parts[0]] + rest)[1..] == rest;
        [parts[0]] + rest
  }

  /** The first kept part is the first non-empty part: every part before it
      is empty. */
  lemma {:induction false} NonEmptyFirst(parts: seq<string>)
    requires NonEmpty(parts) != []
    ensures exists k :: 0 <= k < |parts| && parts[k] == NonEmpty(parts)[0] && forall j :: 0 <= j < k ==> parts[j] == []
  {
    if parts[0] == [] {
      assert NonEmpty(parts) == NonEmpty(parts[1..]);
      NonEmptyFirst(parts[1..]);
      var k :| 0 <= k < |parts[1..]| && parts[1..][k] == NonEmpty(parts)[0] && forall j :: 0 <= j < k ==> parts[1..][j] == [];
      assert parts[k + 1] == NonEmpty(parts)[0];
      assert forall j :: 0 <= j < k + 1 ==> parts[j] == [] by {
        forall j | 0 <= j < k + 1 ensures parts[j] == [] {
          if j > 0 { assert parts[j] == parts[1..][j - 1]; }
        }
      }
    } else {
      assert parts[0] == NonEmpty(parts)[0];
    }
  }

  /** Part `k` is the first part that is not blank. */
  predicate FirstNonBlank(parts: seq<string>, k: int) {
    && 0 <= k < |parts|
    && !IsBlank(parts[k])
    && forall j :: 0 <= j < k ==> IsBlank(parts[j])
  }

  /** The first non-empty trimmed part is the trimmed first part that is not
      blank. */
  lemma TrimmedFirst(parts: seq<string>)
    requires NonEmpty(TrimAll(parts)) != []
    ensures exists k {:trigger FirstNonBlank(parts, k)} :: FirstNonBlank(parts, k) && Trim(parts[k]) == NonEmpty(TrimAll(parts))[0]
  {
    var trimmed := TrimAll(parts);
    NonEmptyFirst(trimmed);
    var k :| 0 <= k < |trimmed| && trimmed[k] == NonEmpty(trimmed)[0] && forall j :: 0 <= j < k ==> trimmed[j] == [];
    assert Trim(parts[k]) == NonEmpty(trimmed)[0];
    assert FirstNonBlank(parts, k) by {
      forall j | 0 <= j < k ensures IsBlank(parts[j]) {
        assert Trim(parts[j]) == trimmed[j];
      }
    }
  }

  /** `${n}` for a non-negative integer: decimal digits, no leading zero. */
  function NatToString(n: nat): (r: string)
    ensures |r| >= 1
    ensures forall i :: 0 <= i < |r| ==> '0' <= r[i] <= '9'
    ensures |r| > 1 ==> r[0] != '0'
    decreases n
  {
    var d := ['0' + (n % 10) as char];
    if n < 10 then d else NatToString(n / 10) + d
  }

  /** The value of a string of decimal digits. */
  function DigitsValue(s: string): nat
    requires forall i :: 0 <= i < |s| ==> '0' <= s[i] <= '9'
  {
    if s == [] then 0
    else DigitsValue(s[..|s| - 1]) * 10 + (s[|s| - 1] - '0') as nat
  }

  lemma {:induction false} NatToStringValue(n: nat)
    ensures DigitsValue(NatToString(n)) == n
    decreases n
  {
    var r := NatToString(n);
    if n >= 10 {
      NatToStringValue(n / 10);
      assert r[..|r| - 1] == NatToString(n / 10);
    }
  }

  /** `split` over a separator cuts the text into the pieces before and
      after it. */
  lemma {:induction false} SplitConcat(u: string, c: char, v: string, seps: set<char>)
    requires c in seps
    ensures Split(u + [c] + v, seps) == Split(u, seps) + Split(v, seps)
  {
    if u == [] {
      assert [] + [c] + v == [c] + v;
      assert ([c] + v)[1..] == v;
    } else {
      assert (u + [c] + v)[0] == u[0];
      assert (u + [c] + v)[1..] == u[1..] + [c] + v;
      SplitConcat(u[1..], c, v, seps);
    }
  }

  lemma {:induction false} TrimAllConcat(a: seq<string>, b: seq<string>)
    ensures TrimAll(a + b) == TrimAll(a) + TrimAll(b)
  {
    if a != [] {
      assert (a + b)[1..] == a[1..] + b;
      TrimAllConcat(a[1..], b);
    } else {
      assert [] + b == b;
    }
  }

  lemma {:induction false} NonEmptyConcat(a: seq<string>, b: seq<string>)
    ensures NonEmpty(a + b) == NonEmpty(a) + NonEmpty(b)
  {
    if a != [] {
      assert (a + b)[1..] == a[1..] + b;
      assert (a + b)[0] == a[0];
      NonEmptyConcat(a[1..], b);
    } else {
      assert [] + b == b;
    }
  }
}
