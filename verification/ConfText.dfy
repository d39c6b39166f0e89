/** String values in .config: conf_write escapes them, conf_read_simple removes the
    escapes within the line buffer (scripts/kconfig/confdata.c). */
module ConfText {
  import opened Options

  const NUL := '\0'

  predicate IsSpecial(c: char) {
    c == '"' || c == '\\'
  }

  function Escape(s: string): string {
    if s == [] then []
    else (if IsSpecial(s[0]) then ['\\', s[0]] else [s[0]]) + Escape(s[1..])
  }

  /** What a reader makes of the text after the opening quote: a backslash makes the
      next character an ordinary one, a quote ends the string, and without a closing
      quote there is no string. */
  function Unescape(t: string): Option<string> {
    if t == [] then None
    else if t[0] == '"' then Some([])
    else if t[0] != '\\' then Prepend(t[0], Unescape(t[1..]))
    else if |t| == 1 then None
    else Prepend(t[1], Unescape(t[2..]))
  }

  function Prepend(c: char, r: Option<string>): Option<string> {
    match r
    case None => None
    case Some(s) => Some([c] + s)
  }

  function PrependAll(p: string, r: Option<string>): Option<string> {
    match r
    case None => None
    case Some(s) => Some(p + s)
  }

  lemma {:induction false} EscapeConcat(a: string, b: string)
    ensures Escape(a + b) == Escape(a) + Escape(b)
  {
    if a == [] {
      assert a + b == b;
    } else {
      EscapeConcat(a[1..], b);
      assert (a + b)[0] == a[0] && (a + b)[1..] == a[1..] + b;
      var head := if IsSpecial(a[0]) then ['\\', a[0]] else [a[0]];
      ConcatRegroups(head, Escape(a[1..]), Escape(b));
    }
  }

  lemma ConcatRegroups(a: string, b: string, c: string)
    ensures a + (b + c) == a + b + c
  {
  }

  lemma {:induction false} EscapePlain(s: string)
    requires forall i :: 0 <= i < |s| ==> !IsSpecial(s[i])
    ensures Escape(s) == s
  {
    if s != [] {
      EscapePlain(s[1..]);
    }
  }

  /** The characters of an escaped string are those of the string and backslashes. */
  lemma {:induction false} EscapeChars(s: string, c: char)
    ensures c in Escape(s) ==> c in s || c == '\\'
  {
    if s != [] {
      EscapeChars(s[1..], c);
    }
  }

  // What the two mean, character by character

  /** A character of a string as it stands in the text, with or without a backslash. */
  datatype Spelled = Spelled(c: char, escaped: bool)

  function SpellAll(xs: seq<Spelled>): string {
    if xs == [] then [] else (if xs[0].escaped then ['\\', xs[0].c] else [xs[0].c]) + SpellAll(xs[1..])
  }

  function CharsOf(xs: seq<Spelled>): string {
    seq(|xs|, i requires 0 <= i < |xs| => xs[i].c)
  }

  /** `t` spells the string up to a closing quote; only what has a backslash can be a
      quote or a backslash. */
  ghost predicate Spells(xs: seq<Spelled>, s: string, t: string, rest: string) {
    && (forall i :: 0 <= i < |xs| && !xs[i].escaped ==> xs[i].c != '"' && xs[i].c != '\\')
    && CharsOf(xs) == s && t == SpellAll(xs) + ['"'] + rest
  }

  /** Quotes and backslashes get a backslash, and nothing else. */
  function Spelling(s: string): seq<Spelled> {
    seq(|s|, i requires 0 <= i < |s| => Spelled(s[i], s[i] == '"' || s[i] == '\\'))
  }

  /** A string is written with a backslash before each quote and backslash, and no
      other. */
  lemma {:induction false} EscapeMeans(s: string)
    ensures Escape(s) == SpellAll(Spelling(s))
  {
    if s != [] {
      EscapeMeans(s[1..]);
      assert Spelling(s)[1..] == Spelling(s[1..]);
    }
  }

  lemma {:induction false} SpelledReads(xs: seq<Spelled>, s: string, t: string, rest: string)
    requires Spells(xs, s, t, rest)
    ensures Unescape(t) == Some(s)
  {
    if xs == [] {
      assert t == ['"'] + rest;
    } else {
      var tail := SpellAll(xs[1..]) + ['"'] + rest;
      var first := if xs[0].escaped then ['\\', xs[0].c] else [xs[0].c];
      assert t == first + tail && t[|first|..] == tail;
      assert s == [xs[0].c] + CharsOf(xs[1..]);
      SpelledReads(xs[1..], CharsOf(xs[1..]), tail, rest);
    }
  }

  /** Reading undoes writing, whatever follows the closing quote. */
  lemma UnescapeEscape(s: string, rest: string)
    ensures Unescape(Escape(s) + ['"'] + rest) == Some(s)
  {
    hide Unescape;
    EscapeMeans(s);
    assert CharsOf(Spelling(s)) == s;
    SpelledReads(Spelling(s), s, Escape(s) + ['"'] + rest, rest);
  }

  lemma {:induction false} ReadsSpelled(t: string) returns (xs: seq<Spelled>, rest: string)
    requires Unescape(t).Some?
    ensures Spells(xs, Unescape(t).value, t, rest)
  {
    if t[0] == '"' {
      xs, rest := [], t[1..];
      assert t == SpellAll([]) + ['"'] + rest;
    } else {
      var x := if t[0] == '\\' then Spelled(t[1], true) else Spelled(t[0], false);
      var k := if x.escaped then 2 else 1;
      var ys;
      ys, rest := ReadsSpelled(t[k..]);
      xs := [x] + ys;
      assert xs[1..] == ys && CharsOf(xs) == [x.c] + CharsOf(ys);
      assert t == t[..k] + t[k..] && t[..k] == if x.escaped then ['\\', x.c] else [x.c];
    }
  }

  /** A text is read as a string if and only if it spells that string and then has a
      quote. */
  lemma UnescapeMeans(t: string, s: string)
    ensures Unescape(t) == Some(s) <==> exists xs, rest :: Spells(xs, s, t, rest)
  {
    hide Spells, Unescape;
    if Unescape(t) == Some(s) {
      var xs, rest := ReadsSpelled(t);
    }
    if xs, rest :| Spells(xs, s, t, rest) {
      SpelledReads(xs, s, t, rest);
    }
  }

  // conf_write: runs of plain characters go out in one piece, each special one escaped

  /** The number of plain characters from a place on. */
  method SpanPlain(s: string, from: nat) returns (l: nat)
    requires from <= |s|
    ensures from + l <= |s|
    ensures forall i :: from <= i < from + l ==> !IsSpecial(s[i])
    ensures from + l < |s| ==> IsSpecial(s[from + l])
  {
    l := 0;
    while from + l < |s| && !IsSpecial(s[from + l])
      invariant from + l <= |s|
      invariant forall i :: from <= i < from + l ==> !IsSpecial(s[i])
    {
      l := l + 1;
    }
  }

  lemma EscapeRun(str: string, pos: nat, l: nat)
    requires pos + l <= |str| && forall i :: pos <= i < pos + l ==> !IsSpecial(str[i])
    ensures Escape(str[..pos + l]) == Escape(str[..pos]) + str[pos..pos + l]
  {
    assert str[..pos + l] == str[..pos] + str[pos..pos + l];
    EscapeConcat(str[..pos], str[pos..pos + l]);
    EscapePlain(str[pos..pos + l]);
  }

  lemma EscapeOne(str: string, pos: nat)
    requires pos < |str| && IsSpecial(str[pos])
    ensures Escape(str[..pos + 1]) == Escape(str[..pos]) + ['\\', str[pos]]
  {
    assert str[..pos + 1] == str[..pos] + [str[pos]];
    EscapeConcat(str[..pos], [str[pos]]);
    assert Escape([str[pos]]) == ['\\', str[pos]] + Escape([]);
  }

  method WriteEscaped(str: string) returns (out: string)
    ensures out == Escape(str)
  {
    out := [];
    var pos := 0;
    while true
      invariant 0 <= pos <= |str| && out == Escape(str[..pos])
      invariant pos < |str| ==> pos == 0 || !IsSpecial(str[pos])
      decreases |str| - pos, pos == 0
    {
      var start := pos;
      var l := SpanPlain(str, pos);
      EscapeRun(str, pos, l);
      out := out + str[pos..pos + l];
      pos := pos + l;
      while pos < |str| && IsSpecial(str[pos])
        invariant start <= pos <= |str| && out == Escape(str[..pos])
        invariant pos == start ==> l == 0
      {
        EscapeOne(str, pos);
        out := out + ['\\', str[pos]];
        pos := pos + 1;
      }
      if pos == |str| {
        break;
      }
    }
    assert str[..pos] == str;
  }

  // conf_read_simple: the line buffer is edited in place

  /** The C string that starts at `i`: up to the next NUL, or to the end. */
  function CString(b: seq<char>, i: nat): string
    requires i <= |b|
    decreases |b| - i
  {
    if i == |b| || b[i] == NUL then [] else [b[i]] + CString(b, i + 1)
  }

  lemma {:induction false} CStringIs(b: seq<char>, i: nat, s: string)
    requires i + |s| < |b| && b[i..i + |s|] == s && b[i + |s|] == NUL && NUL !in s
    ensures CString(b, i) == s
    decreases |s|
  {
    if s != [] {
      assert b[i] == s[0];
      assert b[i + 1..i + |s|] == s[1..];
      CStringIs(b, i + 1, s[1..]);
    }
  }

  lemma {:induction false} CStringBounds(b: seq<char>, i: nat)
    requires i <= |b|
    ensures i + |CString(b, i)| <= |b|
    ensures CString(b, i) == b[i..i + |CString(b, i)|] && NUL !in CString(b, i)
    ensures i + |CString(b, i)| < |b| ==> b[i + |CString(b, i)|] == NUL
    decreases |b| - i
  {
    if i < |b| && b[i] != NUL {
      CStringBounds(b, i + 1);
    }
  }

  /** Plain characters are taken over as they are. */
  lemma {:induction false} UnescapePlain(plain: string, t: string)
    requires forall i :: 0 <= i < |plain| ==> !IsSpecial(plain[i])
    ensures Unescape(plain + t) == PrependAll(plain, Unescape(t))
  {
    if plain == [] {
      assert plain + t == t;
      if Unescape(t).Some? {
        assert [] + Unescape(t).value == Unescape(t).value;
      }
    } else {
      assert (plain + t)[1..] == plain[1..] + t;
      UnescapePlain(plain[1..], t);
      if Unescape(t).Some? {
        assert plain + Unescape(t).value == [plain[0]] + (plain[1..] + Unescape(t).value);
      }
    }
  }

  lemma PrependAllTwice(a: string, b: string, r: Option<string>)
    ensures PrependAll(a, PrependAll(b, r)) == PrependAll(a + b, r)
  {
    if r.Some? {
      assert a + (b + r.value) == (a + b) + r.value;
    }
  }

  /** There is a NUL at or after `i`. */
  predicate Terminated(b: seq<char>, i: nat) {
    i <= |b| && i + |CString(b, i)| < |b|
  }

  lemma {:induction false} CStringTail(b: seq<char>, i: nat, k: nat)
    requires Terminated(b, i) && i <= k <= i + |CString(b, i)|
    ensures Terminated(b, k) && k + |CString(b, k)| == i + |CString(b, i)|
    ensures CString(b, i) == b[i..k] + CString(b, k)
    decreases k - i
  {
    if i < k {
      CStringTail(b, i + 1, k);
      assert b[i..k] == [b[i]] + b[i + 1..k];
    } else {
      assert b[i..i] == [];
    }
  }

  /** The next quote or backslash before the NUL, if there is one. */
  method FindSpecial(line: array<char>, from: nat) returns (k: nat, found: bool)
    requires Terminated(line[..], from)
    ensures from <= k <= from + |CString(line[..], from)|
    ensures forall i :: from <= i < k ==> !IsSpecial(line[i])
    ensures found ==> k < from + |CString(line[..], from)| && IsSpecial(line[k])
    ensures !found ==> k == from + |CString(line[..], from)|
  {
    k := from;
    CStringBounds(line[..], from);
    while line[k] != NUL && !IsSpecial(line[k])
      invariant from <= k <= from + |CString(line[..], from)|
      invariant forall i :: from <= i < k ==> !IsSpecial(line[i])
      decreases line.Length - k
    {
      CStringTail(line[..], from, k);
      k := k + 1;
    }
    CStringTail(line[..], from, k);
    found := line[k] != NUL;
  }

  /** A stretch of the buffer moves down by one place. */
  method MoveDown(line: array<char>, dst: nat, n: nat)
    requires dst + n < line.Length
    modifies line
    ensures line[..] == old(line[..dst] + line[dst + 1..dst + 1 + n] + line[dst + n..])
  {
    var i := 0;
    while i < n
      invariant 0 <= i <= n
      invariant forall j :: 0 <= j < line.Length ==> line[j] == if dst <= j < dst + i then old(line[j + 1]) else old(line[j])
    {
      line[dst + i] := line[dst + i + 1];
      i := i + 1;
    }
  }

  /** What is left of the buffer after the backslash at `k` is moved over. */
  lemma MovedDown(b: seq<char>, b': seq<char>, k: nat)
    requires Terminated(b, k) && |CString(b, k)| > 0
    requires var n := |CString(b, k)|; b' == b[..k] + b[k + 1..k + 1 + n] + b[k + n..]
    ensures Terminated(b', k + 1)
    ensures |CString(b, k)| == 1 ==> CString(b', k + 1) == []
    ensures |CString(b, k)| > 1 ==> b'[k] == CString(b, k)[1] && b'[k] != NUL && CString(b', k + 1) == CString(b, k)[2..]
  {
    var n := |CString(b, k)|;
    CStringBounds(b, k);
    if n == 1 {
      assert b'[k + 1] == b[k + 1];
    } else {
      var t := CString(b, k)[2..];
      assert b'[k] == b[k + 1] == CString(b, k)[1];
      assert CString(b, k)[1] in CString(b, k);
      forall i | 0 <= i < |t|
        ensures b'[k + 1 + i] == t[i]
      {
        assert t[i] == CString(b, k)[2 + i] == b[k + 2 + i];
      }
      assert b'[k + 1..k + 1 + |t|] == t;
      assert b'[k + 1 + |t|] == b[k + n];
      CStringIs(b', k + 1, t);
    }
  }

  /** The loop over a string value: what stands at `p` afterwards, up to its NUL, is
      the text without the escapes; no closing quote is an error. */
  method UnescapeInPlace(line: array<char>, p: nat) returns (ok: bool)
    requires Terminated(line[..], p)
    modifies line
    ensures ok <==> Unescape(old(CString(line[..], p))).Some?
    ensures ok ==> CString(line[..], p) == Unescape(old(CString(line[..], p))).value
    ensures line[..p] == old(line[..p])
  {
    ghost var text := CString(line[..], p);
    var p2 := p;
    ghost var decoded: string := [];
    PrependAllEmpty(Unescape(text));
    while true
      invariant p <= p2 && Terminated(line[..], p2)
      invariant Unescape(text) == PrependAll(decoded, Unescape(CString(line[..], p2)))
      invariant Unescape(text).Some? ==> line[p..p2] == decoded && NUL !in decoded
      invariant line[..p] == old(line[..p])
      decreases line.Length - p2
    {
      var k, found := FindSpecial(line, p2);
      decoded := TakePlain(line[..], p, p2, k, text, decoded);
      if !found {
        return false;
      }
      if line[k] == '"' {
        line[k] := NUL;
        CStringIs(line[..], p, decoded);
        return true;
      }
      decoded := DropEscape(line, p, k, text, decoded);
      p2 := k + 1;
    }
  }

  /** Plain characters before the next quote or backslash. */
  lemma TakePlain(b: seq<char>, p: nat, p2: nat, k: nat, text: string, decoded: string) returns (decoded': string)
    requires p <= p2 && Terminated(b, p2) && p2 <= k <= p2 + |CString(b, p2)|
    requires forall i :: p2 <= i < k ==> !IsSpecial(b[i])
    requires Unescape(text) == PrependAll(decoded, Unescape(CString(b, p2)))
    requires Unescape(text).Some? ==> b[p..p2] == decoded && NUL !in decoded
    ensures Terminated(b, k) && (CString(b, k) == [] <==> k == p2 + |CString(b, p2)|)
    ensures Unescape(text) == PrependAll(decoded', Unescape(CString(b, k)))
    ensures Unescape(text).Some? ==> b[p..k] == decoded' && NUL !in decoded'
  {
    hide Unescape, PrependAll, IsSpecial, CString;
    var plain := b[p2..k];
    PlainTail(b, p2, k);
    UnescapePlain(plain, CString(b, k));
    PrependAllTwice(decoded, plain, Unescape(CString(b, k)));
    decoded' := decoded + plain;
    SliceConcat(b, p, p2, k);
  }

  lemma SliceConcat(b: seq<char>, p: nat, p2: nat, k: nat)
    requires p <= p2 <= k <= |b|
    ensures b[p..k] == b[p..p2] + b[p2..k]
  {
  }

  /** The string from `p2` on, split at a place within. */
  lemma PlainTail(b: seq<char>, p2: nat, k: nat)
    requires Terminated(b, p2) && p2 <= k <= p2 + |CString(b, p2)|
    ensures Terminated(b, k) && CString(b, p2) == b[p2..k] + CString(b, k) && NUL !in b[p2..k]
    ensures CString(b, k) == [] <==> k == p2 + |CString(b, p2)|
  {
    hide CString;
    CStringTail(b, p2, k);
    CStringBounds(b, p2);
    assert CString(b, p2)[..k - p2] == b[p2..k];
  }

  lemma PrependAllEmpty(r: Option<string>)
    ensures PrependAll([], r) == r
  {
    if r.Some? {
      assert [] + r.value == r.value;
    }
  }

  /** One escape: the rest of the string moves down over the backslash. */
  method DropEscape(line: array<char>, p: nat, k: nat, ghost text: string, ghost decoded: string) returns (ghost decoded': string)
    requires p <= k && Terminated(line[..], k) && CString(line[..], k) != [] && line[k] == '\\'
    requires Unescape(text) == PrependAll(decoded, Unescape(CString(line[..], k)))
    requires Unescape(text).Some? ==> line[p..k] == decoded && NUL !in decoded
    modifies line
    ensures Terminated(line[..], k + 1)
    ensures Unescape(text) == PrependAll(decoded', Unescape(CString(line[..], k + 1)))
    ensures Unescape(text).Some? ==> line[p..k + 1] == decoded' && NUL !in decoded'
    ensures line[..p] == old(line[..p])
  {
    ghost var b, t := line[..], CString(line[..], k);
    CStringBounds(b, k);
    var n := StrLen(line, k);
    MoveDown(line, k, n);
    MovedDown(b, line[..], k);
    decoded' := decoded + if n > 1 then [t[1]] else [];
    if n > 1 {
      PrependAllTwice(decoded, [t[1]], Unescape(t[2..]));
      assert line[p..k + 1] == b[p..k] + [t[1]];
    }
  }

  method StrLen(line: array<char>, from: nat) returns (n: nat)
    requires Terminated(line[..], from)
    ensures n == |CString(line[..], from)|
  {
    n := 0;
    CStringBounds(line[..], from);
    while line[from + n] != NUL
      invariant 0 <= n <= |CString(line[..], from)|
      decreases line.Length - n
    {
      CStringTail(line[..], from, from + n);
      n := n + 1;
    }
    CStringTail(line[..], from, from + n);
  }

  // The whole value: what follows the equals sign, up to the end of the line

  function ValueLine(s: string): string {
    ['"'] + Escape(s) + ['"', '\n']
  }

  /** The text before the first newline. */
  function UpToNewline(t: string): string {
    if t == [] || t[0] == '\n' then [] else [t[0]] + UpToNewline(t[1..])
  }

  /** The string a value stands for: it has to start with a quote. */
  function ReadText(t: string): Option<string> {
    var v := UpToNewline(t);
    if v == [] || v[0] != '"' then None else Unescape(v[1..])
  }

  lemma {:induction false} UpToNewlineOf(v: string, rest: string)
    requires '\n' !in v
    ensures UpToNewline(v + ['\n'] + rest) == v
  {
    if v == [] {
      assert v + ['\n'] + rest == ['\n'] + rest;
    } else {
      assert (v + ['\n'] + rest)[1..] == v[1..] + ['\n'] + rest;
      UpToNewlineOf(v[1..], rest);
    }
  }

  /** For every string without a newline, what is written reads as the string. */
  lemma ReadUndoesWrite(s: string)
    requires '\n' !in s
    ensures ReadText(ValueLine(s)) == Some(s)
  {
    EscapeChars(s, '\n');
    var v := ['"'] + Escape(s) + ['"'];
    assert ValueLine(s) == v + ['\n'] + [];
    UpToNewlineOf(v, []);
    assert v[1..] == Escape(s) + ['"'] + [];
    UnescapeEscape(s, []);
  }

  lemma {:induction false} UpToNewlineIs(t: string, k: nat)
    requires k <= |t| && (forall i :: 0 <= i < k ==> t[i] != '\n') && (k < |t| ==> t[k] == '\n')
    ensures UpToNewline(t) == t[..k]
    decreases k
  {
    if k > 0 {
      UpToNewlineIs(t[1..], k - 1);
      assert t[..k] == [t[0]] + t[1..][..k - 1];
    }
  }

  /** What the line holds up to its first newline, or its end, has to be a quote and then
      a text that reads as the string. */
  lemma ReadTextMeans(t: string, k: nat, s: string)
    requires k <= |t| && (forall i :: 0 <= i < k ==> t[i] != '\n') && (k < |t| ==> t[k] == '\n')
    ensures ReadText(t) == Some(s) <==>
      k > 0 && t[0] == '"' && exists xs, rest :: Spells(xs, s, t[1..k], rest)
  {
    hide Spells, Unescape;
    UpToNewlineIs(t, k);
    if k > 0 {
      assert t[..k][1..] == t[1..k];
      UnescapeMeans(t[1..k], s);
    }
  }

  /** The newline that ends the line is overwritten. */
  method CutNewline(line: array<char>, p: nat)
    requires Terminated(line[..], p)
    modifies line
    ensures Terminated(line[..], p) && CString(line[..], p) == UpToNewline(old(CString(line[..], p)))
  {
    ghost var t := CString(line[..], p);
    CStringBounds(line[..], p);
    var n := 0;
    while line[p + n] != NUL && line[p + n] != '\n'
      invariant 0 <= n <= |t| && line[..] == old(line[..])
      invariant forall i :: 0 <= i < n ==> t[i] != '\n'
      decreases line.Length - n
    {
      CStringTail(line[..], p, p + n);
      assert t[n] == line[p + n];
      n := n + 1;
    }
    CStringTail(line[..], p, p + n);
    UpToNewlineIs(t, n);
    if line[p + n] == '\n' {
      line[p + n] := NUL;
    }
    assert line[p..p + n] == t[..n];
    CStringIs(line[..], p, t[..n]);
  }

  /** The part of conf_read_simple for a string symbol, from the value on: on success
      the buffer holds the string at the position returned. */
  method ReadValue(line: array<char>, p: nat) returns (at: nat, ok: bool)
    requires Terminated(line[..], p)
    modifies line
    ensures ok <==> ReadText(old(CString(line[..], p))).Some?
    ensures ok ==> at <= line.Length && CString(line[..], at) == ReadText(old(CString(line[..], p))).value
  {
    hide Unescape, UpToNewline;
    CutNewline(line, p);
    at := p;
    if line[p] != '"' {
      return p, false;
    }
    CStringTail(line[..], p, p + 1);
    at := p + 1;
    ok := UnescapeInPlace(line, at);
  }

  /** What conf_write puts behind the equals sign. */
  method WriteValue(s: string) returns (out: string)
    ensures out == ValueLine(s)
    ensures out == ['"'] + SpellAll(Spelling(s)) + ['"', '\n']
  {
    EscapeMeans(s);
    var escaped := WriteEscaped(s);
    out := ['"'] + escaped + ['"', '\n'];
  }

  /** A value that was written and fetched into the line buffer reads as the string it
      was written for.  The text has to fit into the buffer with its NUL: the program
      fetches lines of at most 1023 characters. */
  method ReadWritten(s: string, line: array<char>, p: nat) returns (at: nat, ok: bool)
    requires NUL !in s && '\n' !in s
    requires p + |ValueLine(s)| < line.Length
    requires line[p..p + |ValueLine(s)|] == ValueLine(s) && line[p + |ValueLine(s)|] == NUL
    modifies line
    ensures ok && at <= line.Length && CString(line[..], at) == s
  {
    EscapeChars(s, NUL);
    CStringIs(line[..], p, ValueLine(s));
    ReadUndoesWrite(s);
    at, ok := ReadValue(line, p);
  }
}
