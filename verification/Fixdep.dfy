/** fixdep (scripts/basic/fixdep.c): the word scan for "CONFIG_" and the buffer of
    lines that serves as a set of names. */
module Fixdep {
  import opened Options

  // What the text of a file says it uses, character by character

  /** isalnum of the C locale, or an underscore. */
  predicate Identifier(c: char) {
    'a' <= c <= 'z' || 'A' <= c <= 'Z' || '0' <= c <= '9' || c == '_'
  }

  /** The first place from `q` on that no identifier character holds. */
  function EndOf(text: string, q: nat): nat
    requires q <= |text|
    ensures q <= EndOf(text, q) <= |text|
    decreases |text| - q
  {
    if q < |text| && Identifier(text[q]) then EndOf(text, q + 1) else q
  }

  predicate OccursAt(text: string, p: nat) {
    p + 7 <= |text| && text[p..p + 7] == "CONFIG_"
  }

  /** The name used at `p`: what follows "CONFIG_", up to a character inside the file
      that ends it, and without a last "_MODULE". */
  function NameAt(text: string, p: nat): Option<string> {
    if !OccursAt(text, p) then None
    else
      var q := EndOf(text, p + 7);
      if q == |text| then None
      else if text[q - 7..q] != "_MODULE" then Some(text[p + 7..q])
      else if q - 7 < p + 7 then None
      else Some(text[p + 7..q - 7])
  }

  function AsSeq(name: Option<string>): seq<string> {
    match name case None => [] case Some(s) => [s]
  }

  /** The uses that begin in a range, in their order. */
  function Uses(text: string, a: nat, b: nat): seq<string>
    requires a <= b
    decreases b
  {
    if a == b then [] else Uses(text, a, b - 1) + AsSeq(NameAt(text, b - 1))
  }

  lemma {:induction false} UsesSplit(text: string, a: nat, b: nat, c: nat)
    requires a <= b <= c
    ensures Uses(text, a, c) == Uses(text, a, b) + Uses(text, b, c)
    decreases c
  {
    if b < c {
      UsesSplit(text, a, b, c - 1);
      var x, y, z := Uses(text, a, b), Uses(text, b, c - 1), AsSeq(NameAt(text, c - 1));
      assert x + y + z == x + (y + z);
    }
  }

  lemma {:induction false} UsesAre(text: string, a: nat, b: nat)
    requires a <= b
    ensures forall n :: n in Uses(text, a, b) <==> exists p :: a <= p < b && NameAt(text, p) == Some(n)
    decreases b
  {
    hide NameAt;
    if a < b {
      UsesAre(text, a, b - 1);
    }
  }

  /** A letter, a digit or an underscore, by its code. */
  predicate InName(c: char) {
    var i := c as int;
    48 <= i <= 57 || 65 <= i <= 90 || 97 <= i <= 122 || i == 95
  }

  lemma {:induction false} EndAfterName(text: string, q: nat, k: nat)
    requires q <= k <= |text| && (forall i :: q <= i < k ==> InName(text[i])) && (k < |text| ==> !InName(text[k]))
    ensures EndOf(text, q) == k
    decreases k - q
  {
    if q < k {
      EndAfterName(text, q + 1, k);
    }
  }

  /** A use as it is written: "CONFIG_", a name, and a character that ends it. */
  lemma NameRead(pre: string, name: string, end: char, post: string)
    requires (forall i :: 0 <= i < |name| ==> InName(name[i])) && !InName(end)
    ensures
      NameAt(pre + "CONFIG_" + name + [end] + post, |pre|) ==
        if name == "MODULE" then None
        else if |name| >= 7 && name[|name| - 7..] == "_MODULE" then Some(name[..|name| - 7])
        else Some(name)
  {
    hide InName, EndOf;
    var text, p := pre + "CONFIG_" + name + [end] + post, |pre|;
    var q := p + 7 + |name|;
    WrittenParts(pre, name, end, post);
    EndAfterName(text, p + 7, q);
    if |name| < 7 {
      ShortName(text, p, name);
    }
  }

  lemma WrittenParts(pre: string, name: string, end: char, post: string)
    ensures
      var text, p := pre + "CONFIG_" + name + [end] + post, |pre|;
      var q := p + 7 + |name|;
      && q < |text| && text[p..p + 7] == "CONFIG_" && text[p + 7..q] == name && text[q] == end
      && (forall i :: p + 7 <= i < q ==> text[i] == name[i - p - 7])
      && (|name| >= 7 ==> text[q - 7..q] == name[|name| - 7..] && text[p + 7..q - 7] == name[..|name| - 7])
  {
  }

  /** The last seven characters of "CONFIG_" and a short name. */
  lemma ShortName(text: string, p: nat, name: string)
    requires |name| < 7 && p + 7 + |name| <= |text|
    requires text[p..p + 7] == "CONFIG_" && text[p + 7..p + 7 + |name|] == name
    ensures text[p + |name|..p + 7 + |name|] == "_MODULE" <==> name == "MODULE"
  {
    var t := text[p + |name|..p + 7 + |name|];
    assert forall i :: 0 <= i < 7 - |name| ==> t[i] == text[p..p + 7][|name| + i];
    assert forall i :: 7 - |name| <= i < 7 ==> t[i] == name[i + |name| - 7];
    if t == "_MODULE" {
      assert t[0] == '_' && t[1] == 'M';
      assert |name| == 6;
      assert name == t[1..];
    }
    if name == "MODULE" {
      assert t == ['_'] + name;
    }
  }

  /** At the end of the file nothing ends the name, and it is not a use. */
  lemma NameUnended(pre: string, name: string)
    requires forall i :: 0 <= i < |name| ==> InName(name[i])
    ensures NameAt(pre + "CONFIG_" + name, |pre|) == None
  {
    var text, p := pre + "CONFIG_" + name, |pre|;
    assert forall i :: p + 7 <= i < |text| ==> text[i] == name[i - p - 7];
    EndAfterName(text, p + 7, |text|);
  }

  // What the aligned words tell

  /** The four bytes of a word; the page is zero behind the end of the file. */
  function Word(text: string, o: nat): string {
    [ByteAt(text, o), ByteAt(text, o + 1), ByteAt(text, o + 2), ByteAt(text, o + 3)]
  }

  function ByteAt(text: string, i: nat): char {
    if i < |text| then text[i] else '\0'
  }

  /** Where "CONFIG_" would begin if this word is a part of it. */
  function Candidate(text: string, o: nat): Option<nat>
    requires o >= 4
  {
    var w := Word(text, o);
    if w == "CONF" then Some(o)
    else if w == "ONFI" then Some(o - 1)
    else if w == "NFIG" then Some(o - 2)
    else if w == "FIG_" then Some(o - 3)
    else None
  }

  /** Whichever of four places "CONFIG_" begins at, the word gives that place. */
  lemma WordTells(text: string, o: nat, p: nat)
    requires o >= 4 && o - 3 <= p <= o && OccursAt(text, p)
    ensures Candidate(text, o) == Some(p)
  {
    var t := text[p..p + 7];
    assert t[0] == text[p] && t[1] == text[p + 1] && t[2] == text[p + 2] && t[3] == text[p + 3];
    assert t[4] == text[p + 4] && t[5] == text[p + 5] && t[6] == text[p + 6];
    if p == o {
      assert Word(text, o) == "CONF";
    } else if p == o - 1 {
      assert Word(text, o) == "ONFI";
    } else if p == o - 2 {
      assert Word(text, o) == "NFIG";
    } else {
      assert Word(text, o) == "FIG_";
    }
  }

  lemma NotThere(text: string, o: nat, p: nat)
    requires o >= 4 && o - 3 <= p <= o && Candidate(text, o) != Some(p)
    ensures NameAt(text, p) == None
  {
    if OccursAt(text, p) {
      WordTells(text, o, p);
    }
  }

  /** So one word stands for four places. */
  lemma FourPlaces(text: string, o: nat)
    requires o >= 4
    ensures Uses(text, o - 3, o + 1) ==
      match Candidate(text, o) case None => [] case Some(p) => AsSeq(NameAt(text, p))
  {
    hide NameAt, Candidate;
    CandidateNear(text, o);
    var c := Candidate(text, o);
    var a, b, d, e := NameAt(text, o - 3), NameAt(text, o - 2), NameAt(text, o - 1), NameAt(text, o);
    assert Uses(text, o - 3, o + 1) == AsSeq(a) + AsSeq(b) + AsSeq(d) + AsSeq(e) by {
      assert Uses(text, o - 3, o - 3) == [];
      assert Uses(text, o - 3, o - 2) == AsSeq(a);
      assert Uses(text, o - 3, o - 1) == AsSeq(a) + AsSeq(b);
      assert Uses(text, o - 3, o) == AsSeq(a) + AsSeq(b) + AsSeq(d);
    }
    if c != Some(o - 3) { NotThere(text, o, o - 3); }
    if c != Some(o - 2) { NotThere(text, o, o - 2); }
    if c != Some(o - 1) { NotThere(text, o, o - 1); }
    if c != Some(o) { NotThere(text, o, o); }
  }

  lemma CandidateNear(text: string, o: nat)
    requires o >= 4
    ensures Candidate(text, o).Some? ==> o - 3 <= Candidate(text, o).value <= o
  {
  }

  /** Nothing begins in the last places. */
  lemma {:induction false} NothingBehind(text: string, a: nat, b: nat)
    requires a <= b && |text| < a + 7
    ensures Uses(text, a, b) == []
    decreases b
  {
    if a < b {
      NothingBehind(text, a, b - 1);
    }
  }

  /** The scan starts at the second word, so it misses a use that begins the file, and
      no other. */
  lemma MissedIff(text: string)
    requires text != ""
    ensures Uses(text, 1, |text|) == Uses(text, 0, |text|) <==> NameAt(text, 0).None?
  {
    hide NameAt;
    UsesSplit(text, 0, 1, |text|);
    assert Uses(text, 0, 1) == AsSeq(NameAt(text, 0)) by { assert Uses(text, 0, 0) == []; }
    assert NameAt(text, 0).None? ==> [] + Uses(text, 1, |text|) == Uses(text, 1, |text|);
    assert |Uses(text, 0, |text|)| == |Uses(text, 0, 1)| + |Uses(text, 1, |text|)|;
  }

  /** What the scan records is all the same the full set of names, unless the use that
      begins the file is of a name that is neither known before nor used again. */
  lemma NothingLostIff(text: string, names: seq<string>)
    requires text != ""
    ensures (forall n :: n in Record(names, Uses(text, 1, |text|)) <==> n in Record(names, Uses(text, 0, |text|)))
            <==> NameAt(text, 0).None? || NameAt(text, 0).value in names || NameAt(text, 0).value in Uses(text, 1, |text|)
  {
    hide NameAt, Record;
    var scanned, all := Uses(text, 1, |text|), Uses(text, 0, |text|);
    UsesSplit(text, 0, 1, |text|);
    assert Uses(text, 0, 1) == AsSeq(NameAt(text, 0)) by { assert Uses(text, 0, 0) == []; }
    assert forall n :: n in all <==> n in AsSeq(NameAt(text, 0)) || n in scanned;
    RecordHas(names, scanned);
    RecordHas(names, all);
  }

  lemma FirstIsMissed()
    ensures NameAt("CONFIG_A\n", 0) == Some("A") && Uses("CONFIG_A\n", 1, 9) == []
  {
    var text := "CONFIG_A\n";
    assert EndOf(text, 8) == 8 && EndOf(text, 7) == 8;
    assert text[0..7] == "CONFIG_" && text[7..8] == "A";
    assert text[1..8][0] != "_MODULE"[0];
    NothingBehind(text, 3, 9);
    UsesSplit(text, 1, 3, 9);
    assert text[1..8][0] == 'O' && text[2..9][0] == 'N';
    assert Uses(text, 1, 1) == [] && Uses(text, 1, 2) == [];
  }

  // The set of names, one on a line

  predicate OneLine(name: string) {
    '\n' !in name
  }

  predicate OneLiners(names: seq<string>) {
    forall n <- names :: OneLine(n)
  }

  /** The buffer that holds these names. */
  function Buffer(names: seq<string>): string {
    if names == [] then "\n" else Buffer(names[..|names| - 1]) + names[|names| - 1] + "\n"
  }

  lemma {:induction false} BufferEnds(names: seq<string>)
    ensures |Buffer(names)| > 0 && Buffer(names)[|Buffer(names)| - 1] == '\n'
  {
  }

  /** A name with a line end on either side. */
  predicate StandsAt(buffer: string, at: nat, name: string) {
    && 1 <= at && at + |name| < |buffer|
    && buffer[at - 1] == '\n' && buffer[at + |name|] == '\n' && buffer[at..at + |name|] == name
  }

  ghost predicate Stands(buffer: string, name: string) {
    exists at :: StandsAt(buffer, at, name)
  }

  lemma StandsLater(buffer: string, at: nat, name: string, more: string)
    requires StandsAt(buffer, at, name)
    ensures StandsAt(buffer + more, at, name)
  {
    assert (buffer + more)[at..at + |name|] == buffer[at..at + |name|];
  }

  lemma StandsLast(buffer: string, name: string)
    requires |buffer| > 0 && buffer[|buffer| - 1] == '\n'
    ensures StandsAt(buffer + name + "\n", |buffer|, name)
  {
  }

  /** A name that stands in the longer buffer stands in the shorter or is the last. */
  lemma StandsWhere(buffer: string, last: string, at: nat, name: string)
    requires |buffer| > 0 && buffer[|buffer| - 1] == '\n' && OneLine(last) && OneLine(name)
    requires StandsAt(buffer + last + "\n", at, name)
    ensures StandsAt(buffer, at, name) || name == last
  {
    var all, end := buffer + last + "\n", at + |name|;
    if end < |buffer| {
      assert all[at..end] == buffer[at..end];
    } else {
      assert forall i :: |buffer| <= i < |all| - 1 ==> all[i] == last[i - |buffer|] && all[i] != '\n';
      assert end == |all| - 1;
      assert forall i :: at <= i < end ==> all[i] == all[at..end][i - at] != '\n';
      assert all[|buffer| - 1] == '\n' && all[at - 1] == '\n';
      assert at == |buffer|;
      assert all[at..end] == last;
    }
  }

  /** The search of the program is a membership test. */
  lemma {:induction false} StandsIff(names: seq<string>, name: string)
    requires OneLiners(names) && OneLine(name)
    ensures Stands(Buffer(names), name) <==> name in names
  {
    if names != [] {
      var front, last := names[..|names| - 1], names[|names| - 1];
      var b := Buffer(front);
      assert names == front + [last];
      StandsIff(front, name);
      BufferEnds(front);
      if Stands(Buffer(names), name) {
        var at :| StandsAt(Buffer(names), at, name);
        StandsWhere(b, last, at, name);
      }
      if name in front {
        var at :| StandsAt(b, at, name);
        StandsLater(b, at, name, last + "\n");
        assert b + (last + "\n") == Buffer(names);
      }
      if name == last {
        StandsLast(b, name);
      }
    }
  }

  // Every name once

  /** The names after a list of uses. */
  function Record(names: seq<string>, uses: seq<string>): seq<string> {
    if uses == [] then names
    else Add(Record(names, uses[..|uses| - 1]), uses[|uses| - 1])
  }

  function Add(names: seq<string>, name: string): seq<string> {
    if name in names then names else names + [name]
  }

  predicate Distinct(names: seq<string>) {
    names == [] || (names[|names| - 1] !in names[..|names| - 1] && Distinct(names[..|names| - 1]))
  }

  /** After a list of uses the names are those from before and each new one once. */
  lemma {:induction false} RecordIsSet(names: seq<string>, uses: seq<string>)
    requires Distinct(names)
    ensures Distinct(Record(names, uses))
    ensures names <= Record(names, uses)
    ensures forall n :: n in Record(names, uses) <==> n in names || n in uses
  {
    if uses != [] {
      var front, last := uses[..|uses| - 1], uses[|uses| - 1];
      assert uses == front + [last];
      RecordIsSet(names, front);
      var r := Record(names, front);
      hide Record;
      assert (r + [last])[..|r + [last]| - 1] == r;
    }
  }

  lemma {:induction false} RecordHas(names: seq<string>, uses: seq<string>)
    ensures forall n :: n in Record(names, uses) <==> n in names || n in uses
  {
    if uses != [] {
      var front, last := uses[..|uses| - 1], uses[|uses| - 1];
      assert uses == front + [last];
      RecordHas(names, front);
    }
  }

  /** Name `i` of `more` is the use at place `at[i]`, which is the first of that name. */
  ghost predicate FirstUses(names: seq<string>, uses: seq<string>, more: seq<string>, at: seq<nat>) {
    && |at| == |more|
    && (forall i :: 0 <= i < |at| ==> at[i] < |uses| && more[i] == uses[at[i]])
    && (forall i :: 0 <= i < |at| ==> more[i] !in names && more[i] !in uses[..at[i]])
    && (forall i, j :: 0 <= i < j < |at| ==> at[i] < at[j])
  }

  lemma FirstUsesOn(names: seq<string>, front: seq<string>, last: string, more: seq<string>, at: seq<nat>)
    requires FirstUses(names, front, more, at)
    ensures FirstUses(names, front + [last], more, at)
    ensures last !in names && last !in front ==> FirstUses(names, front + [last], more + [last], at + [|front|])
  {
    var uses := front + [last];
    assert forall i :: 0 <= i < |at| ==> uses[at[i]] == front[at[i]] && uses[..at[i]] == front[..at[i]];
    assert uses[..|front|] == front;
  }

  /** The new names stand in the order of their first use. */
  lemma {:induction false} RecordInOrder(names: seq<string>, uses: seq<string>) returns (at: seq<nat>)
    ensures names <= Record(names, uses) && FirstUses(names, uses, Record(names, uses)[|names|..], at)
  {
    hide FirstUses;
    if uses == [] {
      at := [];
      FirstUsesNone(names);
      assert names[|names|..] == [];
    } else {
      var front, last := uses[..|uses| - 1], uses[|uses| - 1];
      assert uses == front + [last];
      at := RecordInOrder(names, front);
      var before := Record(names, front);
      RecordHas(names, front);
      FirstUsesOn(names, front, last, before[|names|..], at);
      if last !in before {
        at := at + [|front|];
        assert (before + [last])[|names|..] == before[|names|..] + [last];
      }
    }
  }

  lemma FirstUsesNone(names: seq<string>)
    ensures FirstUses(names, [], [], [])
  {
  }

  lemma RecordMore(names: seq<string>, uses: seq<string>, name: string)
    ensures Record(names, uses + [name]) == Add(Record(names, uses), name)
  {
    assert (uses + [name])[..|uses + [name]| - 1] == uses;
  }

  /** The file whose time stands for the option. */
  function ToLower(c: char): char {
    if 'A' <= c <= 'Z' then ['a', 'b', 'c', 'd', 'e', 'f', 'g', 'h', 'i', 'j', 'k', 'l', 'm',
      'n', 'o', 'p', 'q', 'r', 's', 't', 'u', 'v', 'w', 'x', 'y', 'z'][c as int - 'A' as int] else c
  }

  function Path(name: string): string {
    if name == "" then "" else [if name[0] == '_' then '/' else ToLower(name[0])] + Path(name[1..])
  }

  /** The path by its characters: underscores separate directories, and capitals become
      the letters 32 codes higher. */
  predicate IsPathOf(path: string, name: string) {
    && |path| == |name|
    && forall i :: 0 <= i < |name| ==>
         && (path[i] == '/' <==> name[i] == '_' || name[i] == '/')
         && ('A' <= name[i] <= 'Z' ==> path[i] as int == name[i] as int + 32)
         && (!('A' <= name[i] <= 'Z') && name[i] != '_' ==> path[i] == name[i])
  }

  lemma LowerMeans(c: char)
    ensures 'A' <= c <= 'Z' ==> ToLower(c) as int == c as int + 32
    ensures !('A' <= c <= 'Z') ==> ToLower(c) == c
  {
  }

  lemma {:induction false} PathMeans(name: string)
    ensures IsPathOf(Path(name), name)
    ensures forall i :: 0 <= i < |Path(name)| ==> !('A' <= Path(name)[i] <= 'Z')
  {
    hide ToLower;
    if name != "" {
      LowerMeans(name[0]);
      PathMeans(name[1..]);
      assert forall i :: 1 <= i < |name| ==> name[i] == name[1..][i - 1] && Path(name)[i] == Path(name[1..])[i - 1];
    }
  }

  /** No two options share a file: names have neither small letters nor slashes. */
  lemma PathsDiffer(a: string, b: string)
    requires forall i :: 0 <= i < |a| ==> !('a' <= a[i] <= 'z') && a[i] != '/'
    requires forall i :: 0 <= i < |b| ==> !('a' <= b[i] <= 'z') && b[i] != '/'
    requires Path(a) == Path(b)
    ensures a == b
  {
    hide Path;
    PathMeans(a);
    PathMeans(b);
    forall i | 0 <= i < |a|
      ensures a[i] == b[i]
    {
      assert Path(a)[i] == Path(b)[i];
    }
  }

  function Paths(names: seq<string>): seq<string> {
    if names == [] then [] else Paths(names[..|names| - 1]) + [Path(names[|names| - 1])]
  }

  lemma {:induction false} IdentifierIsOneLine(text: string, q: nat, name: string)
    requires q <= |text| && name <= text[q..EndOf(text, q)]
    ensures OneLine(name)
    decreases |text| - q
  {
    if q < |text| && Identifier(text[q]) && name != "" {
      assert name[0] == text[q];
      assert text[q..EndOf(text, q)][1..] == text[q + 1..EndOf(text, q + 1)];
      IdentifierIsOneLine(text, q + 1, name[1..]);
      assert name == [name[0]] + name[1..];
    }
  }

  lemma MoreNames(names: seq<string>, name: string)
    requires OneLiners(names) && OneLine(name)
    ensures Buffer(names + [name]) == Buffer(names) + name + "\n" && OneLiners(names + [name])
  {
    assert (names + [name])[..|names + [name]| - 1] == names;
  }

  /** The buffer with its length in use, and what has been printed. */
  class Config {
    var str: array<char>
    var len: nat
    var printed: seq<string>
    ghost var names: seq<string>

    ghost predicate Valid()
      reads this, str
    {
      len <= str.Length && str[..len] == Buffer(names) && OneLiners(names)
    }

    constructor ()
      ensures Valid() && names == [] && printed == [] && fresh(str)
    {
      str := new char[0];
      len, printed, names := 0, [], [];
      new;
      Clear();
    }

    /** Doubles the buffer until there is room; the contents stay. */
    method Grow(more: nat)
      requires len <= str.Length
      modifies this`str
      ensures len + more <= str.Length && str[..len] == old(str[..len])
      ensures str == old(str) || fresh(str)
    {
      var size := str.Length;
      while len + more > size
        invariant size >= str.Length
        decreases len + more - size
      {
        if size == 0 {
          size := 2048;
        }
        size := 2 * size;
      }
      if size > str.Length {
        var bigger := new char[size];
        ghost var was := str[..len];
        forall i | 0 <= i < len {
          bigger[i] := str[i];
        }
        assert bigger[..len] == was;
        str := bigger;
      }
    }

    /** define_config: the name and a line end behind what is there. */
    method Append(name: string)
      requires len <= str.Length
      modifies this`str, this`len, str
      ensures len <= str.Length && str[..len] == old(str[..len]) + name + "\n"
      ensures str == old(str) || fresh(str)
    {
      ghost var was := str[..len];
      Grow(|name| + 1);
      var a, i := str, 0;
      while i < |name|
        invariant i <= |name| && str == a && len == old(len)
        invariant str[..len + i] == was + name[..i]
      {
        str[len + i] := name[i];
        i := i + 1;
      }
      len := len + |name|;
      str[len] := '\n';
      len := len + 1;
    }

    method Clear()
      modifies this`str, this`len, this`names, str
      ensures Valid() && names == []
      ensures str == old(str) || fresh(str)
    {
      len := 0;
      Append("");
      names := [];
    }

    method IsDefined(name: string) returns (found: bool)
      requires Valid() && OneLine(name)
      ensures found <==> name in names
    {
      StandsIff(names, name);
      var at := 1;
      while at + |name| < len
        invariant at >= 1
        invariant forall k :: 1 <= k < at ==> !StandsAt(str[..len], k, name)
        decreases len - at
      {
        if str[at - 1] == '\n' && str[at + |name|] == '\n' && str[at..at + |name|] == name {
          assert str[..len][at..at + |name|] == name;
          assert StandsAt(str[..len], at, name);
          return true;
        }
        assert str[..len][at..at + |name|] == str[at..at + |name|];
        at := at + 1;
      }
      return false;
    }

    /** A new name gets into the buffer and its path is printed; one that is known is
        passed over. */
    method Use(name: string)
      requires Valid() && OneLine(name)
      modifies this, str
      ensures Valid() && (str == old(str) || fresh(str))
      ensures names == Add(old(names), name)
      ensures printed == old(printed) + (if name in old(names) then [] else [Path(name)])
      ensures name !in old(names) ==> IsPathOf(printed[|old(printed)|], name)
    {
      hide Buffer, OneLiners, OneLine, Path, IsPathOf;
      PathMeans(name);
      var known := IsDefined(name);
      if known {
        return;
      }
      Append(name);
      MoreNames(names, name);
      names := names + [name];
      var path := MakePath(name);
      printed := printed + [path];
    }

    /** What one candidate place leads to. */
    method UseAt(text: string, p: nat)
      requires Valid()
      modifies this, str
      ensures Valid() && (str == old(str) || fresh(str))
      ensures names == Record(old(names), AsSeq(NameAt(text, p)))
      ensures Printed(old(printed), old(names))
    {
      PathsOfNone(printed, names);
      if p + 7 > |text| || text[p..p + 7] != "CONFIG_" {
        return;
      }
      var q := FindEnd(text, p + 7);
      if q == |text| {
        return;
      }
      var e: int := q;
      if text[q - 7..q] == "_MODULE" {
        e := q - 7;
      }
      if e - p - 7 < 0 {
        return;
      }
      var name := text[p + 7..e];
      assert text[p + 7..q][..|name|] == name;
      IdentifierIsOneLine(text, p + 7, name);
      assert NameAt(text, p) == Some(name);
      RecordMore(names, [], name);
      PathsOfOne(printed, names, name);
      Use(name);
    }

    /** Names are printed when they are new, in their order. */
    ghost predicate Printed(before: seq<string>, had: seq<string>)
      reads this`printed, this`names
    {
      had <= names && printed == before + Paths(names[|had|..])
    }

    /** The scan: one word in four characters finds every use but one that begins the
        file, each once and in order. */
    method Parse(text: string)
      requires Valid()
      modifies this, str
      ensures Valid() && (str == old(str) || fresh(str))
      ensures names == Record(old(names), Uses(text, 1, if text == "" then 1 else |text|))
      ensures Printed(old(printed), old(names))
      ensures old(printed) <= printed && |printed| - |old(printed)| == |names| - |old(names)|
      ensures forall i :: |old(names)| <= i < |names| ==> IsPathOf(printed[|old(printed)| + i - |old(names)|], names[i])
      ensures forall n :: n in names <==> n in old(names) || exists p :: 1 <= p < |text| && NameAt(text, p) == Some(n)
    {
      hide NameAt, Buffer, IsPathOf, OneLiners, Candidate, OccursAt, Uses, Record, Paths;
      ghost var last := if text == "" then 1 else |text|;
      PathsOfNone(printed, names);
      NothingYet(text, names);
      PrintedStart();
      var o := 4;
      while o < |text|
        invariant 4 <= o <= last + 3
        invariant Valid() && (str == old(str) || fresh(str))
        invariant names == Record(old(names), Uses(text, 1, o - 3))
        invariant Printed(old(printed), old(names))
        decreases |text| - o
      {
        ScanStep(old(names), text, o);
        var p := Candidate(text, o);
        if p.Some? {
          ghost var done, was := names, printed;
          UseAt(text, p.value);
          PrintedTwice(old(printed), old(names), was, done);
        }
        o := o + 4;
      }
      ScanEnd(text, o, last);
      PathsAre(names[|old(names)|..]);
      RecordHas(old(names), Uses(text, 1, last));
      UsesAre(text, 1, last);
    }

    lemma PrintedStart()
      ensures Printed(printed, names)
    {
    }

    lemma PrintedTwice(first: seq<string>, had: seq<string>, was: seq<string>, done: seq<string>)
      requires had <= done && was == first + Paths(done[|had|..]) && Printed(was, done)
      ensures Printed(first, had)
    {
      PathsOfTwo(first, had, done, was, names);
    }
  }

  lemma NothingYet(text: string, names: seq<string>)
    ensures names == Record(names, Uses(text, 1, 1))
  {
  }

  lemma ScanStep(names: seq<string>, text: string, o: nat)
    requires o >= 4
    ensures
      var before, after := Record(names, Uses(text, 1, o - 3)), Record(names, Uses(text, 1, o + 1));
      match Candidate(text, o)
      case None => after == before
      case Some(p) => after == Record(before, AsSeq(NameAt(text, p)))
  {
    hide Candidate, NameAt, Record;
    FourPlaces(text, o);
    UsesSplit(text, 1, o - 3, o + 1);
    var a, b := Uses(text, 1, o - 3), Uses(text, o - 3, o + 1);
    assert b == [] ==> a + b == a;
    RecordTwo(names, a, b);
  }

  lemma ScanEnd(text: string, o: nat, last: nat)
    requires 4 <= o <= last + 3 && |text| <= o && last >= 1
    ensures Uses(text, 1, last) == Uses(text, 1, o - 3)
  {
    UsesSplit(text, 1, o - 3, last);
    NothingBehind(text, o - 3, last);
    assert Uses(text, 1, o - 3) + [] == Uses(text, 1, o - 3);
  }

  lemma {:induction false} RecordTwo(names: seq<string>, a: seq<string>, b: seq<string>)
    ensures Record(names, a + b) == Record(Record(names, a), b)
  {
    if b == [] {
      assert a + b == a;
    } else {
      var front := b[..|b| - 1];
      assert (a + b)[..|a + b| - 1] == a + front;
      RecordTwo(names, a, front);
    }
  }

  lemma {:induction false} PathsSplit(a: seq<string>, b: seq<string>)
    ensures Paths(a + b) == Paths(a) + Paths(b)
  {
    if b == [] {
      assert a + b == a;
    } else {
      var front := b[..|b| - 1];
      assert (a + b)[..|a + b| - 1] == a + front;
      PathsSplit(a, front);
    }
  }

  lemma {:induction false} PathsAre(names: seq<string>)
    ensures |Paths(names)| == |names|
    ensures forall i :: 0 <= i < |names| ==> IsPathOf(Paths(names)[i], names[i])
  {
    hide Path, IsPathOf;
    if names != [] {
      PathsAre(names[..|names| - 1]);
      PathMeans(names[|names| - 1]);
    }
  }

  lemma PathsOfNone(printed: seq<string>, names: seq<string>)
    ensures printed == printed + Paths(names[|names|..])
  {
  }

  lemma PathsOfOne(printed: seq<string>, names: seq<string>, name: string)
    ensures names <= Add(names, name)
    ensures printed + (if name in names then [] else [Path(name)]) == printed + Paths(Add(names, name)[|names|..])
  {
  }

  lemma PathsOfTwo(first: seq<string>, had: seq<string>, done: seq<string>, was: seq<string>, now: seq<string>)
    requires had <= done <= now && was == first + Paths(done[|had|..])
    ensures was + Paths(now[|done|..]) == first + Paths(now[|had|..])
  {
    hide Paths;
    var x, y := done[|had|..], now[|done|..];
    assert now[|had|..] == x + y;
    PathsSplit(x, y);
    assert first + Paths(x) + Paths(y) == first + (Paths(x) + Paths(y));
  }

  method FindEnd(text: string, from: nat) returns (q: nat)
    requires from <= |text|
    ensures q == EndOf(text, from)
  {
    q := from;
    while q < |text| && Identifier(text[q])
      invariant from <= q <= |text| && EndOf(text, q) == EndOf(text, from)
    {
      q := q + 1;
    }
  }

  lemma PathStep(name: string, i: nat)
    requires i < |name|
    ensures Path(name[i..]) == [if name[i] == '_' then '/' else ToLower(name[i])] + Path(name[i + 1..])
  {
    assert name[i..][0] == name[i] && name[i..][1..] == name[i + 1..];
  }

  lemma OneChanged(done: string, s: string, name: string, i: nat, c: char)
    requires i < |name| && |done| == i && s == done + name[i..]
    ensures s[i] == name[i] && s[i := c] == done + [c] + name[i + 1..]
  {
  }

  /** Underscores and capitals are replaced in place. */
  method MakePath(name: string) returns (s: string)
    ensures s == Path(name)
  {
    hide ToLower, Path;
    s := name;
    var i := 0;
    ghost var done := "";
    assert name[0..] == name && "" + name == name && "" + Path(name) == Path(name);
    while i < |name|
      invariant i <= |name| == |s| && |done| == i
      invariant s == done + name[i..] && done + Path(name[i..]) == Path(name)
    {
      PathStep(name, i);
      var c := if s[i] == '_' then '/' else ToLower(s[i]);
      OneChanged(done, s, name, i, c);
      s, done := s[i := c], done + [c];
      i := i + 1;
    }
    PathOfNothing();
    assert name[i..] == "" && done + "" == done;
  }

  lemma PathOfNothing()
    ensures Path("") == ""
  {
  }
}
