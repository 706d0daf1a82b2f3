/** The placeholder substitution applied to every snippet body: a fixed table
    of eight literal (old, new) pairs, applied the way Go's `strings.Replacer`
    applies a table whose keys are longer than one byte. The scan runs left to
    right; at each position the earliest table entry whose key starts there
    wins; the key is replaced and the scan resumes after it, so matches never
    overlap and output is never rescanned; a position where no key starts is
    copied as it is. */
module Replacer {
  import opened Outcomes

  /** One replacement: the text to look for and the text written instead. */
  type Pair = (string, string)

  /** The table, in argument order. */
  function Table(): seq<Pair> {
    [
      ("\\n", "\n"),
      ("\\t", "\t"),
      ("\\s", " "),
      ("%brace_open%", "{\n\t"),
      ("%brace_close%", "}\n"),
      ("%cursor%", "${1:content}"),
      ("%block%", "\n{\n\t${1:content}\n}"),
      ("%block_cursor%", "{\n\t${1:content}\n}\n")
    ]
  }

  /** Keys are non-empty, so every match consumes input. */
  predicate WellFormed(t: seq<Pair>) {
    forall j :: 0 <= j < |t| ==> t[j].0 != []
  }

  /** No key of the table is a prefix of a different entry's key. */
  predicate PrefixFree(t: seq<Pair>) {
    forall i, j :: 0 <= i < |t| && 0 <= j < |t| && i != j ==> !(t[i].0 <= t[j].0)
  }

  /** The index of the earliest entry whose key starts `s`, if there is one
      (the replacer's lookup, where an earlier argument has the higher
      priority). */
  function FirstMatch(t: seq<Pair>, s: string): (m: Option<nat>)
    ensures m.Some? ==> m.value < |t| && t[m.value].0 <= s
  {
    if t == [] then None
    else if t[0].0 <= s then Some(0)
    else match FirstMatch(t[1..], s)
      case None => None
      case Some(j) => Some(j + 1)
  }

  /** The lookup finds nothing exactly when no key starts `s`, and what it
      finds is the earliest key that does. */
  lemma {:induction false} FirstMatchSpec(t: seq<Pair>, s: string)
    ensures FirstMatch(t, s).None? <==> forall j :: 0 <= j < |t| ==> !(t[j].0 <= s)
    ensures FirstMatch(t, s).Some? ==> forall j :: 0 <= j < FirstMatch(t, s).value ==> !(t[j].0 <= s)
  {
    if t != [] && !(t[0].0 <= s) {
      FirstMatchSpec(t[1..], s);
      assert forall j :: 1 <= j < |t| ==> t[j] == t[1..][j - 1];
    }
  }

  /** Every entry of `t` replaces its key by the key itself. */
  predicate Identity(t: seq<Pair>) {
    forall j :: 0 <= j < |t| ==> t[j].1 == t[j].0
  }

  /** The replacer's scan over `s` with table `t`. Matches neither overlap
      nor leave gaps: with a table that writes every key back as it is, the
      scan gives back its input. */
  function Apply(t: seq<Pair>, s: string): (r: string)
    requires WellFormed(t)
    ensures Identity(t) ==> r == s
    decreases |s|
  {
    if s == [] then []
    else match FirstMatch(t, s)
      case Some(i) =>
        assert s == s[..|t[i].0|] + s[|t[i].0|..];
        t[i].1 + Apply(t, s[|t[i].0|..])
      case None =>
        assert s == [s[0]] + s[1..];
        [s[0]] + Apply(t, s[1..])
  }

  /** `replacer.Replace(content)` with the program's table: since every
      replacement text is non-empty, the result is empty exactly when the
      body is. */
  function Replace(s: string): (r: string)
    ensures r == [] <==> s == []
  {
    TableFacts();
    Apply(Table(), s)
  }

  /** A character at which some key of the table starts. */
  predicate IsLead(c: char) {
    c == '\\' || c == '%'
  }

  /** Text containing no character at which a key can start. */
  predicate Plain(s: string) {
    forall j :: 0 <= j < |s| ==> !IsLead(s[j])
  }

  /** A character with which some replacement text starts. */
  predicate IsOpener(c: char) {
    c == '\n' || c == '\t' || c == ' ' || c == '{' || c == '}' || c == '$'
  }

  /** Text containing no character with which a replacement text starts. */
  predicate OpenerFree(s: string) {
    forall j :: 0 <= j < |s| ==> !IsOpener(s[j])
  }

  /** The shape of the table that the proofs below rely on: every key is
      non-empty and starts with a lead character, the rest of every key holds
      no opener, and every replacement text is non-empty, starts with an
      opener and holds no lead character. */
  lemma TableFacts()
    ensures WellFormed(Table())
    ensures forall i :: 0 <= i < |Table()| ==> IsLead(Table()[i].0[0])
    ensures forall i :: 0 <= i < |Table()| ==> OpenerFree(Table()[i].0[1..])
    ensures forall i :: 0 <= i < |Table()| ==> Table()[i].1 != [] && IsOpener(Table()[i].1[0])
    ensures forall i :: 0 <= i < |Table()| ==> Plain(Table()[i].1)
  {
  }

  /** No key is a prefix of another key, in particular `%block%` is not a
      prefix of `%block_cursor%`: any two keys differ at a position both have. */
  lemma TablePrefixFree()
    ensures PrefixFree(Table())
  {
    forall i, j | 0 <= i < |Table()| && 0 <= j < |Table()| && i != j
      ensures !(Table()[i].0 <= Table()[j].0)
    {
      var a, b := Table()[i].0, Table()[j].0;
      if i < 3 {
        if j < 3 { assert a[1] != b[1]; } else { assert a[0] != b[0]; }
      } else if j < 3 {
        assert a[0] != b[0];
      } else if i == 5 || j == 5 {
        assert a[1] != b[1];
      } else if (i <= 4) != (j <= 4) {
        assert a[2] != b[2];
      } else if i <= 4 {
        assert a[7] != b[7];
      } else {
        assert a[6] != b[6];
      }
    }
  }

  /** Two prefixes of one text are prefixes of each other. */
  lemma PrefixesComparable(a: string, b: string, s: string)
    requires a <= s && b <= s
    ensures a <= b || b <= a
  {
    if |a| <= |b| {
      assert b[..|a|] == s[..|a|] == a;
    } else {
      assert a[..|b|] == s[..|b|] == b;
    }
  }

  /** In a prefix-free table at most one key starts any given text, so which
      entry the scan picks never depends on the order of the table. */
  lemma AtMostOneMatch(t: seq<Pair>, s: string, i: nat, j: nat)
    requires PrefixFree(t)
    requires i < |t| && j < |t|
    requires t[i].0 <= s && t[j].0 <= s
    ensures i == j
  {
    PrefixesComparable(t[i].0, t[j].0, s);
  }

  /** A key at the head of the text is replaced by its own replacement, and
      the scan resumes right after it without looking at the replacement. */
  lemma ReplaceKey(i: nat, rest: string)
    requires i < |Table()|
    ensures Replace(Table()[i].0 + rest) == Table()[i].1 + Replace(rest)
  {
    TableFacts();
    TablePrefixFree();
    var s := Table()[i].0 + rest;
    assert Table()[i].0 <= s;
    FirstMatchSpec(Table(), s);
    match FirstMatch(Table(), s)
    case None =>
      assert false;
    case Some(j) =>
      AtMostOneMatch(Table(), s, i, j);
      assert s[|Table()[i].0|..] == rest;
  }

  /** Each escape and each marker, alone, turns into its expansion. */
  lemma EscapesAndMarkers()
    ensures Replace("\\n") == "\n"
    ensures Replace("\\t") == "\t"
    ensures Replace("\\s") == " "
    ensures Replace("%brace_open%") == "{\n\t"
    ensures Replace("%brace_close%") == "}\n"
    ensures Replace("%cursor%") == "${1:content}"
    ensures Replace("%block%") == "\n{\n\t${1:content}\n}"
    ensures Replace("%block_cursor%") == "{\n\t${1:content}\n}\n"
  {
    forall i | 0 <= i < |Table()|
      ensures Replace(Table()[i].0) == Table()[i].1
    {
      ReplaceKey(i, []);
      assert Table()[i].0 + [] == Table()[i].0;
      assert Table()[i].1 + [] == Table()[i].1;
    }
    assert Replace(Table()[0].0) == Table()[0].1;
    assert Replace(Table()[1].0) == Table()[1].1;
    assert Replace(Table()[2].0) == Table()[2].1;
    assert Replace(Table()[3].0) == Table()[3].1;
    assert Replace(Table()[4].0) == Table()[4].1;
    assert Replace(Table()[5].0) == Table()[5].1;
    assert Replace(Table()[6].0) == Table()[6].1;
    assert Replace(Table()[7].0) == Table()[7].1;
  }

  /** No key starts at a character that is neither a backslash nor a percent
      sign. */
  lemma NoLeadNoMatch(s: string)
    requires s != [] && !IsLead(s[0])
    ensures FirstMatch(Table(), s).None?
  {
    TableFacts();
    forall i | 0 <= i < |Table()|
      ensures !(Table()[i].0 <= s)
    {
      assert Table()[i].0[0] != s[0];
    }
  }

  /** A text at whose head no key starts is copied one character, and the
      scan goes on from the next one. */
  lemma ReplaceCopiesUnmatched(s: string)
    requires s != [] && FirstMatch(Table(), s).None?
    ensures Replace(s) == [s[0]] + Replace(s[1..])
  {
    TableFacts();
  }

  /** A text that starts with a character at which no key starts is copied
      one character, and the scan goes on from the next one. */
  lemma ReplaceCopiesHead(s: string)
    requires s != [] && !IsLead(s[0])
    ensures Replace(s) == [s[0]] + Replace(s[1..])
  {
    NoLeadNoMatch(s);
    ReplaceCopiesUnmatched(s);
  }

  /** Text at none of whose positions a key starts is copied verbatim ahead of
      whatever the rest of the input turns into, backslashes and percent signs
      included: `\\d` or a lone `%` is left as it is. */
  lemma {:induction false} CopyUnmatched(p: string, s: string)
    requires forall j :: 0 <= j < |p| ==> FirstMatch(Table(), (p + s)[j..]).None?
    ensures Replace(p + s) == p + Replace(s)
    decreases |p|
  {
    if p != [] {
      UnmatchedStep(p, s);
      CopyUnmatched(p[1..], s);
      assert [p[0]] + p[1..] == p;
    } else {
      assert p + s == s;
    }
  }

  /** One step of `CopyUnmatched`: the head of `p` is copied, and the rest of
      `p` still has no key starting in it. */
  lemma UnmatchedStep(p: string, s: string)
    requires p != []
    requires forall j :: 0 <= j < |p| ==> FirstMatch(Table(), (p + s)[j..]).None?
    ensures Replace(p + s) == [p[0]] + Replace(p[1..] + s)
    ensures forall j :: 0 <= j < |p[1..]| ==> FirstMatch(Table(), (p[1..] + s)[j..]).None?
  {
    var t := p + s;
    assert t[0..] == t;
    assert t[1..] == p[1..] + s;
    ReplaceCopiesUnmatched(t);
    forall j | 0 <= j < |p[1..]|
      ensures FirstMatch(Table(), (p[1..] + s)[j..]).None?
    {
      assert (p[1..] + s)[j..] == t[j + 1..];
    }
  }

  /** Text without backslashes and percent signs is copied verbatim ahead of
      whatever the rest of the input turns into. */
  lemma CopyVerbatim(p: string, s: string)
    requires Plain(p)
    ensures Replace(p + s) == p + Replace(s)
  {
    forall j | 0 <= j < |p|
      ensures FirstMatch(Table(), (p + s)[j..]).None?
    {
      assert (p + s)[j..][0] == p[j];
      NoLeadNoMatch((p + s)[j..]);
    }
    CopyUnmatched(p, s);
  }

  /** A backslash followed by a letter other than `n`, `t`, `s`, and a percent
      sign that opens no marker, are copied. */
  lemma UnmatchedLeadsKept(body: string)
    requires body == "\\d 50%"
    ensures Replace(body) == body
  {
    TableFacts();
    assert body + [] == body;
    forall j | 0 <= j < |body|
      ensures FirstMatch(Table(), (body + [])[j..]).None?
    {
      forall i | 0 <= i < |Table()|
        ensures !(Table()[i].0 <= body[j..])
      {
        var k := Table()[i].0;
        if j == 0 {
          assert k[0] != '\\' || k[1] != 'd';
        } else if j == 5 {
          assert |body[j..]| < 2 <= |k|;
        } else {
          assert k[0] != body[j..][0];
        }
      }
      FirstMatchSpec(Table(), body[j..]);
    }
    CopyUnmatched(body, []);
    assert Replace([]) == [];
  }

  /** A body containing no backslash and no percent sign comes out unchanged. */
  lemma PlainUnchanged(s: string)
    requires Plain(s)
    ensures Replace(s) == s
  {
    CopyVerbatim(s, []);
    assert s + [] == s;
  }

  /** Plain text before a key is copied in order, the key is expanded, and the
      scan continues with what follows the key. */
  lemma ReplaceSplit(p: string, i: nat, rest: string)
    requires Plain(p)
    requires i < |Table()|
    ensures Replace(p + Table()[i].0 + rest) == p + Table()[i].1 + Replace(rest)
  {
    assert p + Table()[i].0 + rest == p + (Table()[i].0 + rest);
    CopyVerbatim(p, Table()[i].0 + rest);
    ReplaceKey(i, rest);
  }

  /** The Go snippet `func %cursor%%block_cursor%`: two adjacent markers,
      each expanded once, with no rescanning of the expansions. */
  lemma GoFuncExample(body: string)
    requires body == "func %cursor%%block_cursor%"
    ensures Replace(body) == "func ${1:content}{\n\t${1:content}\n}\n"
  {
    GoFuncPieces(body);
    GoFuncJoin();
    assert Replace([]) == [];
    var tail := Table()[7].0;
    ReplaceSplit("func ", 5, tail);
    ReplaceKey(7, []);
    assert tail + [] == tail;
  }

  /** The example body split at its two markers, and its expected output
      joined from the two expansions. */
  lemma GoFuncPieces(body: string)
    requires body == "func %cursor%%block_cursor%"
    ensures body == "func " + Table()[5].0 + Table()[7].0
  {
    assert Table()[5].0 == "%cursor%" && Table()[7].0 == "%block_cursor%";
  }

  lemma GoFuncJoin()
    ensures "func " + Table()[5].1 + Table()[7].1 == "func ${1:content}{\n\t${1:content}\n}\n"
  {
    assert Table()[5].1 == "${1:content}" && Table()[7].1 == "{\n\t${1:content}\n}\n";
  }

  /** Two tables holding the same entries, the first prefix-free, pick the
      same entry for any text, or both pick none. */
  lemma SameMatch(t1: seq<Pair>, t2: seq<Pair>, s: string)
    requires PrefixFree(t1)
    requires forall e :: e in t1 <==> e in t2
    ensures FirstMatch(t1, s).Some? <==> FirstMatch(t2, s).Some?
    ensures FirstMatch(t1, s).Some? && FirstMatch(t2, s).Some? ==>
              t1[FirstMatch(t1, s).value] == t2[FirstMatch(t2, s).value]
  {
    var m1, m2 := FirstMatch(t1, s), FirstMatch(t2, s);
    FirstMatchSpec(t1, s);
    FirstMatchSpec(t2, s);
    if m1.Some? {
      assert t1[m1.value] in t2;
    }
    if m2.Some? {
      assert t2[m2.value] in t1;
      var k :| 0 <= k < |t1| && t1[k] == t2[m2.value];
      if m1.Some? {
        AtMostOneMatch(t1, s, m1.value, k);
      }
    }
  }

  /** Reordering or repeating the entries of a prefix-free table never changes
      the result: the argument order of the table decides nothing. */
  lemma {:induction false} OrderIrrelevant(t1: seq<Pair>, t2: seq<Pair>, s: string)
    requires WellFormed(t1) && WellFormed(t2)
    requires PrefixFree(t1)
    requires forall e :: e in t1 <==> e in t2
    ensures Apply(t1, s) == Apply(t2, s)
    decreases |s|
  {
    if s != [] {
      SameMatch(t1, t2, s);
      var m1 := FirstMatch(t1, s);
      if m1.Some? {
        OrderIrrelevant(t1, t2, s[|t1[m1.value].0|..]);
      } else {
        OrderIrrelevant(t1, t2, s[1..]);
      }
    }
  }

  /** Any reordering of the program's table gives the same replacer. */
  lemma TableOrderIrrelevant(t: seq<Pair>, s: string)
    requires forall e :: e in t <==> e in Table()
    ensures WellFormed(t)
    ensures Apply(t, s) == Replace(s)
  {
    TableFacts();
    TablePrefixFree();
    forall j | 0 <= j < |t|
      ensures t[j].0 != []
    {
      assert t[j] in Table();
    }
    OrderIrrelevant(Table(), t, s);
  }

  /** `k` occurs somewhere in `s`. */
  predicate Occurs(k: string, s: string) {
    exists p :: 0 <= p <= |s| && k <= s[p..]
  }

  /** A non-empty text starts a one-character extension exactly when its head
      is that character and its tail starts the rest. */
  lemma PrefixCons(c: char, k: string, x: string)
    requires k != []
    ensures k <= [c] + x <==> k[0] == c && k[1..] <= x
  {
    var y := [c] + x;
    if k[0] == c && k[1..] <= x {
      assert k == [c] + k[1..];
      assert y[..|k|] == [c] + x[..|k| - 1];
    }
    if k <= y {
      assert k[1..] == y[1..|k|] == x[..|k| - 1];
    }
  }

  /** An opener-free text at the head of the output was at the head of the
      input, since every expansion starts with an opener. */
  lemma {:induction false} OutputPrefix(k: string, r: string)
    requires OpenerFree(k)
    ensures k <= Replace(r) ==> k <= r
    decreases |r|
  {
    TableFacts();
    if k != [] && r != [] {
      match FirstMatch(Table(), r)
      case Some(i) =>
        assert Replace(r)[0] == Table()[i].1[0];
      case None =>
        PrefixCons(r[0], k, Replace(r[1..]));
        PrefixCons(r[0], k, r[1..]);
        OutputPrefix(k[1..], r[1..]);
        assert r == [r[0]] + r[1..];
    }
  }

  /** What the scan writes for the head of `s`, and the input left after it. */
  function Step(s: string): (string, string)
    requires s != []
  {
    TableFacts();
    match FirstMatch(Table(), s)
    case Some(i) => (Table()[i].1, s[|Table()[i].0|..])
    case None => ([s[0]], s[1..])
  }

  /** A key never starts at a position inside the head piece of the output. */
  lemma NoKeyInPiece(s: string, i: nat, p: nat)
    requires s != [] && i < |Table()|
    requires p < |Step(s).0|
    ensures !(Table()[i].0 <= (Step(s).0 + Replace(Step(s).1))[p..])
  {
    TableFacts();
    var (piece, rest) := Step(s);
    var k := Table()[i].0;
    var out := piece + Replace(rest);
    assert (piece + Replace(rest))[p..] == out[p..];
    match FirstMatch(Table(), s)
    case Some(j) =>
      assert out[p..][0] == Table()[j].1[p];
      assert !IsLead(Table()[j].1[p]);
    case None =>
      FirstMatchSpec(Table(), s);
      assert out == [s[0]] + Replace(rest);
      PrefixCons(s[0], k, Replace(rest));
      PrefixCons(s[0], k, rest);
      OutputPrefix(k[1..], rest);
      assert s == [s[0]] + rest;
  }

  /** A single pass leaves no escape and no marker in the result. */
  lemma {:induction false} NoKeyRemains(s: string)
    ensures forall i :: 0 <= i < |Table()| ==> !Occurs(Table()[i].0, Replace(s))
    decreases |s|
  {
    TableFacts();
    if s != [] {
      var (piece, rest) := Step(s);
      var out := Replace(s);
      assert out == piece + Replace(rest);
      NoKeyRemains(rest);
      forall i, p | 0 <= i < |Table()| && 0 <= p <= |out|
        ensures !(Table()[i].0 <= out[p..])
      {
        if p >= |piece| {
          assert out[p..] == Replace(rest)[p - |piece|..];
        } else {
          NoKeyInPiece(s, i, p);
        }
      }
    }
  }

  /** The replacer as Go's generic replacer runs it: an index `i` moves over
      the input, `last` marks the start of the text not yet written; each
      step handles the position `i`, and the pending tail is written at the
      end. */
  method ReplaceScan(s: string) returns (r: string)
    ensures r == Replace(s)
  {
    r := [];
    var last, i := 0, 0;
    while i < |s|
      invariant 0 <= last <= i <= |s|
      invariant r + (s[last..i] + Replace(s[i..])) == Replace(s)
      decreases |s| - i
    {
      r, last, i := ScanStep(s, r, last, i);
    }
    ScanEnd(s, r, last);
    r := r + s[last..];
  }

  /** One position of the scan: a position whose character starts no key is
      skipped at once, and so is one at which no key starts; a match writes
      the pending text and the replacement and resumes after the key. The
      output written so far and the replacement of the unscanned rest, with
      the pending text between them, always make up the whole result. */
  method ScanStep(s: string, r: string, last: nat, i: nat) returns (r': string, last': nat, i': nat)
    requires last <= i < |s|
    requires r + (s[last..i] + Replace(s[i..])) == Replace(s)
    ensures last' <= i' <= |s| && i < i'
    ensures r' + (s[last'..i'] + Replace(s[i'..])) == Replace(s)
  {
    if !IsLead(s[i]) {
      NoLeadNoMatch(s[i..]);
      ScanSkip(s, last, i);
      return r, last, i + 1;
    }
    match FirstMatch(Table(), s[i..])
    case Some(k) =>
      ScanMatch(s, r, last, i, k);
      var j := i + |Table()[k].0|;
      return r + (s[last..i] + Table()[k].1), j, j;
    case None =>
      ScanSkip(s, last, i);
      return r, last, i + 1;
  }

  /** At the end of the input, writing the pending text completes the
      result. */
  lemma ScanEnd(s: string, r: string, last: nat)
    requires last <= |s|
    requires r + (s[last..|s|] + Replace(s[|s|..])) == Replace(s)
    ensures r + s[last..] == Replace(s)
  {
    assert s[|s|..] == [] && s[last..|s|] == s[last..];
    assert Replace([]) == [];
  }

  /** Invariant step of the scan when nothing matches at `i`. */
  lemma ScanSkip(s: string, last: nat, i: nat)
    requires last <= i < |s|
    requires FirstMatch(Table(), s[i..]).None?
    ensures s[last..i] + Replace(s[i..]) == s[last..i + 1] + Replace(s[i + 1..])
  {
    TableFacts();
    assert s[i..][1..] == s[i + 1..];
    assert s[last..i + 1] == s[last..i] + [s[i]];
  }

  /** Invariant step of the scan when entry `k` matches at `i`: the pending
      text and the replacement are written, and nothing is pending after the
      key. */
  lemma ScanMatch(s: string, r: string, last: nat, i: nat, k: nat)
    requires last <= i < |s|
    requires FirstMatch(Table(), s[i..]) == Some(k)
    requires r + (s[last..i] + Replace(s[i..])) == Replace(s)
    ensures i + |Table()[k].0| <= |s|
    ensures var j := i + |Table()[k].0|;
      (r + (s[last..i] + Table()[k].1)) + (s[j..j] + Replace(s[j..])) == Replace(s)
  {
    TableFacts();
    var j := i + |Table()[k].0|;
    assert s[i..][|Table()[k].0|..] == s[j..];
    assert Replace(s[i..]) == Table()[k].1 + Replace(s[j..]);
    assert s[j..j] + Replace(s[j..]) == Replace(s[j..]);
  }
}
