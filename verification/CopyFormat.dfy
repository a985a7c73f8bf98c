/**
 The text line that `sql_batch_insert` sends to PostgreSQL's COPY, built with `pgsql_copy_escape`, and
 how the server reads it back: fields split at tabs, then unescaped.
 */
module CopyFormat {
  import opened PathNames

  predicate IsSpecial(c: char) {
    c == '\n' || c == '\\' || c == '\t' || c == '\r'
  }

  function EscapeLetter(c: char): char
    requires IsSpecial(c)
  {
    if c == '\n' then 'n' else if c == '\t' then 't' else if c == '\r' then 'r' else '\\'
  }

  function EscapeChar(c: char): (r: string)
    ensures 1 <= |r| <= 2
  {
    if IsSpecial(c) then ['\\', EscapeLetter(c)] else [c]
  }

  function Escape(s: string): (r: string)
    ensures |s| <= |r| <= 2 * |s|
  {
    if s == "" then "" else Escape(s[..|s| - 1]) + EscapeChar(s[|s| - 1])
  }

  lemma {:induction false} EscapeStep(s: string, n: nat)
    requires n < |s|
    ensures Escape(s[..n + 1]) == Escape(s[..n]) + EscapeChar(s[n])
  {
    assert s[..n + 1][..n] == s[..n];
  }

  /** The switch of `pgsql_copy_escape` for one character. */
  method PutEscaped(dest: array<char>, d: nat, ch: char) returns (next: nat)
    requires d + 2 <= dest.Length
    modifies dest
    ensures next == d + |EscapeChar(ch)|
    ensures dest[..next] == old(dest[..d]) + EscapeChar(ch)
    ensures EscapeChar(ch) == if ch == '\n' then "\\n" else if ch == '\t' then "\\t" else if ch == '\r' then "\\r"
                              else if ch == '\\' then "\\\\" else [ch]
  {
    var c := '\0';
    if ch == '\n' {
      c := 'n';
    } else if ch == '\\' {
      c := '\\';
    } else if ch == '\t' {
      c := 't';
    } else if ch == '\r' {
      c := 'r';
    }
    next := d;
    if c != '\0' {
      dest[next] := '\\';
      next := next + 1;
      dest[next] := c;
    } else {
      dest[next] := ch;
    }
    next := next + 1;
    assert dest[..next] == dest[..d] + dest[d..next] && dest[d..next] == EscapeChar(ch);
  }

  /** `pgsql_copy_escape`: copies at most len characters of a NUL-terminated source. */
  method CopyEscape(dest: array<char>, src: string, len: nat) returns (end: nat)
    requires '\0' in src && dest.Length >= 2 * len + 1
    modifies dest
    ensures end < dest.Length && dest[end] == '\0'
    ensures var n := if len < |Text(src)| then len else |Text(src)|;
            dest[..end] == Escape(Text(src)[..n])
  {
    ghost var text := Text(src);
    var left, s, d := len, 0, 0;
    while left > 0 && src[s] != '\0'
      invariant 0 <= left && s <= |text| && s + left == len
      invariant 0 <= d <= 2 * s && dest[..d] == Escape(text[..s])
      decreases left
    {
      assert src[|text|] == '\0' && src[s] == text[s];
      EscapeStep(text, s);
      d := PutEscaped(dest, d, src[s]);
      left, s := left - 1, s + 1;
    }
    dest[d] := '\0';
    end := d;
    assert left > 0 ==> s == |text| by {
      if s < |text| {
        assert src[s] == text[s] && text[s] in text;
      }
    }
  }

  // ----- Reading a field back

  function UnescapeLetter(c: char): char {
    if c == 'n' then '\n' else if c == 't' then '\t' else if c == 'r' then '\r' else c
  }

  function Unescape(s: string): string
    decreases |s|
  {
    if s == "" then ""
    else if s[0] == '\\' && |s| > 1 then [UnescapeLetter(s[1])] + Unescape(s[2..])
    else [s[0]] + Unescape(s[1..])
  }

  lemma {:induction false} EscapeFront(c: char, s: string)
    ensures Escape([c] + s) == EscapeChar(c) + Escape(s)
    decreases |s|
  {
    if s == "" {
      assert ([c] + s)[..0] == "";
    } else {
      var (front, last) := (s[..|s| - 1], s[|s| - 1]);
      EscapeFront(c, front);
      var (whole, e, f, l) := ([c] + s, EscapeChar(c), Escape(front), EscapeChar(last));
      assert whole[..|s|] == [c] + front && whole[|s|] == last;
      assert Escape(whole) == (e + f) + l;
      assert (e + f) + l == e + (f + l);
    }
  }

  lemma {:induction false} UnescapeEscape(s: string)
    ensures Unescape(Escape(s)) == s
    decreases |s|
  {
    if s != "" {
      assert s == [s[0]] + s[1..];
      EscapeFront(s[0], s[1..]);
      var lead := EscapeChar(s[0]);
      assert (lead + Escape(s[1..]))[|lead|..] == Escape(s[1..]);
      UnescapeEscape(s[1..]);
    }
  }

  lemma {:induction false} NoSeparatorSurvives(s: string)
    ensures '\t' !in Escape(s) && '\n' !in Escape(s) && '\r' !in Escape(s)
  {
    if s != "" {
      NoSeparatorSurvives(s[..|s| - 1]);
    }
  }

  /** No raw tab, newline or carriage return survives, and the text is never the NULL marker. */
  lemma {:induction false} EscapedIsClean(s: string)
    ensures '\t' !in Escape(s) && '\n' !in Escape(s) && '\r' !in Escape(s)
    ensures Escape(s) != ['\\', 'N']
  {
    NoSeparatorSurvives(s);
    UnescapeEscape(s);
    assert Unescape(['\\', 'N']) == ['N'] + Unescape("");
    assert Escape("N") == Escape("") + EscapeChar('N');
  }

  lemma {:induction false} EscapePlain(s: string)
    requires forall i :: 0 <= i < |s| ==> !IsSpecial(s[i])
    ensures Escape(s) == s
  {
    if s != "" {
      EscapePlain(s[..|s| - 1]);
      assert s == s[..|s| - 1] + [s[|s| - 1]];
    }
  }

  // ----- Numbers

  function Digit(d: nat): char
    requires d < 10
  {
    '0' + d as char
  }

  function DecimalNat(n: nat): (r: string)
    ensures r != ""
  {
    (if n < 10 then "" else DecimalNat(n / 10)) + [Digit(n % 10)]
  }

  /** %d */
  function Decimal(n: int): (r: string)
    ensures r != ""
  {
    if n < 0 then ['-'] + DecimalNat(-n) else DecimalNat(n)
  }

  function ParseNat(s: string): int {
    if s == "" then 0 else 10 * ParseNat(s[..|s| - 1]) + (s[|s| - 1] as int - '0' as int)
  }

  function ParseInt(s: string): int {
    if s != "" && s[0] == '-' then -ParseNat(s[1..]) else ParseNat(s)
  }

  lemma {:induction false} OneMoreDigit(front: string, d: nat)
    requires d < 10
    ensures ParseNat(front + [Digit(d)]) == 10 * ParseNat(front) + d
  {
    assert (front + [Digit(d)])[..|front|] == front;
  }

  lemma {:induction false} DecimalNatReads(n: nat)
    ensures ParseNat(DecimalNat(n)) == n
  {
    var q, r := n / 10, n % 10;
    if n < 10 {
      OneMoreDigit("", n);
    } else {
      DecimalNatReads(q);
      OneMoreDigit(DecimalNat(q), r);
    }
  }

  lemma {:induction false} DecimalNatDigits(n: nat)
    ensures forall i :: 0 <= i < |DecimalNat(n)| ==> '0' <= DecimalNat(n)[i] <= '9'
  {
    if n >= 10 {
      DecimalNatDigits(n / 10);
    }
  }

  lemma {:induction false} ParseSigned(s: string)
    ensures ParseInt(['-'] + s) == -ParseNat(s)
  {
    assert (['-'] + s)[1..] == s;
  }

  lemma {:induction false} ParseUnsigned(s: string)
    requires s != "" && s[0] != '-'
    ensures ParseInt(s) == ParseNat(s)
  {
  }

  lemma {:induction false} StartsWithDigit(n: nat)
    ensures DecimalNat(n)[0] != '-'
  {
    DecimalNatDigits(n);
    assert '0' <= DecimalNat(n)[0];
  }

  lemma {:induction false} DecimalParses(n: int)
    ensures ParseInt(Decimal(n)) == n
  {
    if n < 0 {
      DecimalNatReads(-n);
      ParseSigned(DecimalNat(-n));
    } else {
      DecimalNatReads(n);
      StartsWithDigit(n);
      ParseUnsigned(DecimalNat(n));
    }
  }

  lemma {:induction false} DecimalPlain(n: int)
    ensures forall i :: 0 <= i < |Decimal(n)| ==> !IsSpecial(Decimal(n)[i])
  {
    DecimalNatDigits(if n < 0 then -n else n);
  }

  lemma {:induction false} DecimalReads(n: int)
    ensures ParseInt(Decimal(n)) == n
    ensures forall i :: 0 <= i < |Decimal(n)| ==> !IsSpecial(Decimal(n)[i])
  {
    DecimalParses(n);
    DecimalPlain(n);
  }

  // ----- The line

  /** The values of the record; the name is split into path and file before it gets here. */
  datatype Record = Record(fileIndex: int, jobId: nat, path: string, name: string, attr: string, digest: string, deltaSeq: nat)

  predicate Plain(s: string) {
    forall i :: 0 <= i < |s| ==> !IsSpecial(s[i])
  }

  /** A missing digest is sent as "0". */
  function DigestText(digest: string): string {
    if digest == "" then "0" else digest
  }

  function JoinTabs(fields: seq<string>): string
    requires fields != []
  {
    if |fields| == 1 then fields[0] else fields[0] + ['\t'] + JoinTabs(fields[1..])
  }

  function Fields(r: Record): seq<string> {
    [Decimal(r.fileIndex), Decimal(r.jobId), Escape(r.path), Escape(r.name), r.attr, DigestText(r.digest), Decimal(r.deltaSeq)]
  }

  function CopyLine(r: Record): string {
    JoinTabs(Fields(r)) + ['\n']
  }

  /** The line `sql_batch_insert` hands to the server, its two escape buffers sized 2 * length + 1. */
  method BuildLine(r: Record) returns (line: string)
    requires '\0' !in r.path && '\0' !in r.name
    ensures line == CopyLine(r)
  {
    var escName := new char[2 * |r.name| + 1];
    TextIs(r.name + ['\0'], |r.name|);
    var n := CopyEscape(escName, r.name + ['\0'], |r.name|);
    assert Text(r.name + ['\0'])[..|r.name|] == r.name;
    var escPath := new char[2 * |r.path| + 1];
    TextIs(r.path + ['\0'], |r.path|);
    var p := CopyEscape(escPath, r.path + ['\0'], |r.path|);
    assert Text(r.path + ['\0'])[..|r.path|] == r.path;
    var digest := if r.digest == "" then "0" else r.digest;
    line := JoinTabs([Decimal(r.fileIndex), Decimal(r.jobId), escPath[..p], escName[..n], r.attr, digest, Decimal(r.deltaSeq)])
            + ['\n'];
  }

  /** The server cuts a line at every tab. */
  function SplitTabs(s: string): (r: seq<string>)
    ensures r != []
  {
    if s == "" then [""]
    else
      var rest := SplitTabs(s[1..]);
      if s[0] == '\t' then [""] + rest else [[s[0]] + rest[0]] + rest[1..]
  }

  lemma {:induction false} SplitOne(f: string, rest: string)
    requires '\t' !in f
    ensures SplitTabs(f + ['\t'] + rest) == [f] + SplitTabs(rest)
    ensures SplitTabs(f) == [f]
    decreases |f|
  {
    if f == "" {
      assert f + ['\t'] + rest == ['\t'] + rest;
    } else {
      SplitOne(f[1..], rest);
      assert (f + ['\t'] + rest)[1..] == f[1..] + ['\t'] + rest;
      assert f == [f[0]] + f[1..];
    }
  }

  lemma {:induction false} SplitJoin(fields: seq<string>)
    requires fields != [] && forall i :: 0 <= i < |fields| ==> '\t' !in fields[i]
    ensures SplitTabs(JoinTabs(fields)) == fields
    decreases |fields|
  {
    if |fields| == 1 {
      SplitOne(fields[0], "");
    } else {
      SplitJoin(fields[1..]);
      SplitOne(fields[0], JoinTabs(fields[1..]));
    }
  }

  lemma {:induction false} JoinHasNoNewline(fields: seq<string>)
    requires fields != [] && forall i :: 0 <= i < |fields| ==> '\n' !in fields[i]
    ensures '\n' !in JoinTabs(fields)
    decreases |fields|
  {
    if |fields| > 1 {
      JoinHasNoNewline(fields[1..]);
    }
  }

  lemma {:induction false} FieldsAreClean(r: Record)
    requires Plain(r.attr) && Plain(r.digest)
    ensures forall i :: 0 <= i < 7 ==> '\t' !in Fields(r)[i] && '\n' !in Fields(r)[i]
  {
    NumberIsClean(r.fileIndex);
    NumberIsClean(r.jobId);
    NumberIsClean(r.deltaSeq);
    EscapedIsClean(r.path);
    EscapedIsClean(r.name);
  }

  lemma {:induction false} NumberIsClean(n: int)
    ensures '\t' !in Decimal(n) && '\n' !in Decimal(n)
  {
    DecimalReads(n);
  }

  /** What the server makes of a line. */
  function ReadLine(line: string): seq<string> {
    var fields := SplitTabs(line[..if line == "" then 0 else |line| - 1]);
    seq(|fields|, i requires 0 <= i < |fields| => Unescape(fields[i]))
  }

  lemma {:induction false} PlainReads(s: string)
    requires Plain(s)
    ensures Unescape(s) == s
  {
    EscapePlain(s);
    UnescapeEscape(s);
  }

  lemma {:induction false} LineHasFields(r: Record)
    requires Plain(r.attr) && Plain(r.digest)
    ensures var line, f := CopyLine(r), ReadLine(CopyLine(r));
            && line[|line| - 1] == '\n' && '\n' !in line[..|line| - 1]
            && |f| == 7 && forall i :: 0 <= i < 7 ==> f[i] == Unescape(Fields(r)[i])
  {
    FieldsAreClean(r);
    SplitJoin(Fields(r));
    JoinHasNoNewline(Fields(r));
    var line := CopyLine(r);
    assert line[..|line| - 1] == JoinTabs(Fields(r));
  }

  lemma {:induction false} NumberReads(n: int)
    ensures ParseInt(Unescape(Decimal(n))) == n
  {
    DecimalReads(n);
    PlainReads(Decimal(n));
  }

  lemma {:induction false} FieldsRead(r: Record)
    requires Plain(r.attr) && Plain(r.digest)
    ensures var f := Fields(r);
            && ParseInt(Unescape(f[0])) == r.fileIndex && ParseInt(Unescape(f[1])) == r.jobId
            && Unescape(f[2]) == r.path && Unescape(f[3]) == r.name
            && Unescape(f[4]) == r.attr && Unescape(f[5]) == DigestText(r.digest) && ParseInt(Unescape(f[6])) == r.deltaSeq
  {
    var f := Fields(r);
    assert f[2] == Escape(r.path) && f[3] == Escape(r.name) && f[4] == r.attr && f[5] == DigestText(r.digest);
    NumberReads(r.fileIndex);
    NumberReads(r.jobId);
    NumberReads(r.deltaSeq);
    PlainReads(r.attr);
    PlainReads(DigestText(r.digest));
    UnescapeEscape(r.path);
    UnescapeEscape(r.name);
  }

  /** One line, one record: the seven values come back, and only the last character is a newline. */
  lemma {:induction false} CopyRoundTrip(r: Record)
    requires Plain(r.attr) && Plain(r.digest)
    ensures var f := ReadLine(CopyLine(r));
            && |f| == 7
            && ParseInt(f[0]) == r.fileIndex && ParseInt(f[1]) == r.jobId && f[2] == r.path && f[3] == r.name
            && f[4] == r.attr && f[5] == (if r.digest != "" then r.digest else "0") && ParseInt(f[6]) == r.deltaSeq
    ensures var line := CopyLine(r); line[|line| - 1] == '\n' && '\n' !in line[..|line| - 1]
  {
    LineHasFields(r);
    FieldsRead(r);
  }

  /** The full name survives the split, the line and the server. */
  lemma {:induction false} FullNameRoundTrip(fname: string, fileIndex: int, jobId: nat, attr: string, digest: string, deltaSeq: nat)
    requires Plain(attr) && Plain(digest)
    ensures var f := ReadLine(CopyLine(Record(fileIndex, jobId, PathPart(fname), FilePart(fname), attr, digest, deltaSeq)));
            |f| == 7 && f[2] + f[3] == fname
  {
    CopyRoundTrip(Record(fileIndex, jobId, PathPart(fname), FilePart(fname), attr, digest, deltaSeq));
    assert PathPart(fname) <= fname;
  }
}
