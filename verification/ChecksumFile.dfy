/** Checksum files in the coreutils layout: one `<digest>  <path>` line per entry. */
module ChecksumFile {
  datatype Option<T> = None | Some(value: T)
  datatype Algorithm = Sha256 | Blake3 | Crc32 | Md5

  datatype Entry = Entry(path: string, digest: string, binary: bool, algorithm: Option<Algorithm>)
  datatype Error = MalformedLine(line: nat) | MalformedDigest(line: nat)
  datatype Result<T> = Ok(value: T) | Err(error: Error)

  /** A path and the digest computed for it. */
  datatype Computed = Computed(path: string, digest: string)

  function AlgorithmName(a: Algorithm): string {
    match a
    case Sha256 => "sha256"
    case Blake3 => "blake3"
    case Crc32 => "crc32"
    case Md5 => "md5"
  }

  /** 64 digits are shared by two algorithms and stay ambiguous. */
  function AlgorithmForWidth(width: nat): Option<Algorithm> {
    if width == 8 then Some(Crc32) else if width == 32 then Some(Md5) else None
  }

  // --------------------------------------------------------------- characters

  predicate IsHexDigit(c: char) {
    '0' <= c <= '9' || 'a' <= c <= 'f' || 'A' <= c <= 'F'
  }

  predicate IsWhitespace(c: char) {
    || '\t' <= c <= '\r' || c == ' ' || c == '\U{85}' || c == '\U{A0}' || c == '\U{1680}'
    || '\U{2000}' <= c <= '\U{200A}' || c == '\U{2028}' || c == '\U{2029}' || c == '\U{202F}' || c == '\U{205F}'
    || c == '\U{3000}'
  }

  function LowerChar(c: char): char {
    if 'A' <= c <= 'Z' then (c as int + 32) as char else c
  }

  function Lower(s: string): (t: string)
    ensures |t| == |s|
    ensures forall i :: 0 <= i < |s| ==> t[i] == LowerChar(s[i])
  {
    seq(|s|, i requires 0 <= i < |s| => LowerChar(s[i]))
  }

  predicate IsDigest(d: string) {
    d != [] && |d| % 2 == 0 && forall c :: c in d ==> IsHexDigit(c)
  }

  lemma {:induction false} LowerKeepsDigests(d: string)
    ensures IsDigest(Lower(d)) <==> IsDigest(d)
    ensures Lower(Lower(d)) == Lower(d)
  {
    var l := Lower(d);
    if IsDigest(l) {
      forall c | c in d
        ensures IsHexDigit(c)
      {
        var i :| 0 <= i < |d| && d[i] == c;
        assert l[i] in l;
      }
    }
    if IsDigest(d) {
      forall c | c in l
        ensures IsHexDigit(c)
      {
        var i :| 0 <= i < |l| && l[i] == c;
        assert d[i] in d;
      }
    }
  }

  // ------------------------------------------------------------------ writing

  function LineOf(c: Computed): string {
    c.digest + "  " + c.path
  }

  function Header(a: Algorithm): string {
    "# " + AlgorithmName(a)
  }

  function Body(entries: seq<Computed>): string {
    if entries == [] then [] else LineOf(entries[0]) + "\n" + Body(entries[1..])
  }

  function Written(entries: seq<Computed>, a: Algorithm): string {
    Header(a) + "\n" + Body(entries)
  }

  lemma {:induction false} BodyAppend(entries: seq<Computed>, c: Computed)
    ensures Body(entries + [c]) == Body(entries) + LineOf(c) + "\n"
  {
    if entries == [] {
      assert Body([c]) == LineOf(c) + "\n" + Body([c][1..]);
    } else {
      BodyAppend(entries[1..], c);
      assert (entries + [c])[1..] == entries[1..] + [c];
    }
  }

  lemma {:induction false} WrittenAppend(entries: seq<Computed>, c: Computed, a: Algorithm)
    ensures Written(entries + [c], a) == Written(entries, a) + LineOf(c) + "\n"
  {
    BodyAppend(entries, c);
    assert Header(a) + "\n" + (Body(entries) + LineOf(c) + "\n") == Header(a) + "\n" + Body(entries) + LineOf(c) + "\n";
  }

  method WriteChecksumFile(entries: seq<Computed>, a: Algorithm) returns (text: string)
    ensures text == Written(entries, a)
  {
    text := Header(a) + "\n";
    assert text == Written([], a);
    for i := 0 to |entries|
      invariant text == Written(entries[..i], a)
    {
      assert entries[..i + 1] == entries[..i] + [entries[i]];
      WrittenAppend(entries[..i], entries[i], a);
      text := text + LineOf(entries[i]) + "\n";
    }
    assert entries[..|entries|] == entries;
  }

  // ------------------------------------------------------------------ reading

  /** The text up to the first newline. */
  function FirstLine(s: string): (l: string)
    ensures l <= s && '\n' !in l
  {
    if s == [] || s[0] == '\n' then [] else [s[0]] + FirstLine(s[1..])
  }

  /** The lines of a text; a final newline does not start another line. */
  function Lines(s: string): seq<string>
    decreases |s|
  {
    if s == [] then []
    else
      var l := FirstLine(s);
      [l] + if |l| == |s| then [] else Lines(s[|l| + 1..])
  }

  function TrimEnd(l: string): (t: string)
    ensures t <= l && (t != [] ==> t[|t| - 1] != '\r')
  {
    if l != [] && l[|l| - 1] == '\r' then TrimEnd(l[..|l| - 1]) else l
  }

  predicate Ignored(l: string) {
    (forall c :: c in l ==> IsWhitespace(c)) || (l != [] && l[0] == '#')
  }

  /** The position of the first space, or the length. */
  function FirstSpace(l: string): (k: nat)
    ensures k <= |l| && (k < |l| ==> l[k] == ' ') && forall i :: 0 <= i < k ==> l[i] != ' '
  {
    if l == [] || l[0] == ' ' then 0 else 1 + FirstSpace(l[1..])
  }

  function ParseLine(l: string, number: nat): Result<Entry> {
    var k := FirstSpace(l);
    if k == |l| then Err(MalformedLine(number))
    else
      var digest, remainder := l[..k], l[k + 1..];
      if remainder == [] || (remainder[0] != '*' && remainder[0] != ' ') then Err(MalformedLine(number))
      else
        var path := remainder[1..];
        if path == [] then Err(MalformedLine(number))
        else if !IsDigest(digest) then Err(MalformedDigest(number))
        else Ok(Entry(path, Lower(digest), remainder[0] == '*', AlgorithmForWidth(|digest|)))
  }

  /** The entries of the first `n` lines, or the first error. */
  function ReadLines(lines: seq<string>, n: nat): Result<seq<Entry>>
    requires n <= |lines|
  {
    if n == 0 then Ok([])
    else
      var before := ReadLines(lines, n - 1);
      if before.Err? then before
      else
        var l := TrimEnd(lines[n - 1]);
        if Ignored(l) then before
        else
          var e := ParseLine(l, n);
          if e.Err? then Err(e.error) else Ok(before.value + [e.value])
  }

  function Read(text: string): Result<seq<Entry>> {
    ReadLines(Lines(text), |Lines(text)|)
  }

  lemma {:induction false} ErrorStays(lines: seq<string>, n: nat, m: nat)
    requires n <= m <= |lines| && ReadLines(lines, n).Err?
    ensures ReadLines(lines, m) == ReadLines(lines, n)
  {
    if n < m {
      ErrorStays(lines, n, m - 1);
    }
  }

  method ReadChecksumFile(text: string) returns (r: Result<seq<Entry>>)
    ensures r == Read(text)
  {
    var lines := Lines(text);
    var entries := [];
    for i := 0 to |lines|
      invariant ReadLines(lines, i) == Ok(entries)
    {
      var l := TrimEnd(lines[i]);
      if Ignored(l) {
        continue;
      }
      var e := ParseLine(l, i + 1);
      if e.Err? {
        ErrorStays(lines, i + 1, |lines|);
        return Err(e.error);
      }
      entries := entries + [e.value];
    }
    return Ok(entries);
  }

  // --------------------------------------------------------------- round trip

  predicate IsPath(p: string) {
    p != [] && '\n' !in p && p[|p| - 1] != '\r'
  }

  /** What the writer can represent. */
  predicate Representable(c: Computed) {
    IsPath(c.path) && IsDigest(c.digest)
  }

  /** The entry that a written line stands for. */
  function EntryOf(c: Computed): Entry {
    Entry(c.path, Lower(c.digest), false, AlgorithmForWidth(|c.digest|))
  }

  function EntriesOf(entries: seq<Computed>): (r: seq<Entry>)
    ensures |r| == |entries| && forall i :: 0 <= i < |r| ==> r[i] == EntryOf(entries[i])
  {
    seq(|entries|, i requires 0 <= i < |entries| => EntryOf(entries[i]))
  }

  lemma {:induction false} FirstLineOf(l: string, rest: string)
    requires '\n' !in l
    ensures FirstLine(l + "\n" + rest) == l
  {
    if l == [] {
      assert l + "\n" + rest == "\n" + rest;
    } else {
      FirstLineOf(l[1..], rest);
      assert (l + "\n" + rest)[1..] == l[1..] + "\n" + rest;
      assert l == [l[0]] + l[1..];
    }
  }

  lemma {:induction false} LinesOf(l: string, rest: string)
    requires '\n' !in l
    ensures Lines(l + "\n" + rest) == [l] + Lines(rest)
  {
    FirstLineOf(l, rest);
    assert (l + "\n" + rest)[|l| + 1..] == rest;
  }

  lemma {:induction false} FirstSpaceAfter(d: string, rest: string)
    requires ' ' !in d
    ensures FirstSpace(d + " " + rest) == |d|
  {
    if d == [] {
      assert d + " " + rest == " " + rest;
    } else {
      FirstSpaceAfter(d[1..], rest);
      assert (d + " " + rest)[1..] == d[1..] + " " + rest;
    }
  }

  /** One written line reads back as its entry. */
  lemma {:induction false} LineReadsBack(c: Computed, number: nat)
    requires Representable(c)
    ensures '\n' !in LineOf(c) && TrimEnd(LineOf(c)) == LineOf(c) && !Ignored(LineOf(c))
    ensures ParseLine(LineOf(c), number) == Ok(EntryOf(c))
  {
    var l := LineOf(c);
    assert l[0] == c.digest[0] && c.digest[0] in c.digest && l[0] in l;
    assert l[|l| - 1] == c.path[|c.path| - 1];
    forall x | x in c.digest
      ensures x != '\n' && x != ' '
    {
    }
    assert l == c.digest + " " + (" " + c.path);
    FirstSpaceAfter(c.digest, " " + c.path);
    assert l[..|c.digest|] == c.digest;
    assert l[|c.digest| + 1..] == " " + c.path;
    assert (" " + c.path)[1..] == c.path;
  }

  ghost function LinesOfEntries(entries: seq<Computed>): seq<string> {
    seq(|entries|, i requires 0 <= i < |entries| => LineOf(entries[i]))
  }

  lemma {:induction false} LinesOfBody(entries: seq<Computed>)
    requires forall c :: c in entries ==> Representable(c)
    ensures Lines(Body(entries)) == LinesOfEntries(entries)
  {
    if entries != [] {
      LineReadsBack(entries[0], 0);
      LinesOf(LineOf(entries[0]), Body(entries[1..]));
      LinesOfBody(entries[1..]);
    }
  }

  lemma {:induction false} EntriesOfNext(entries: seq<Computed>, n: nat)
    requires n < |entries|
    ensures EntriesOf(entries[..n + 1]) == EntriesOf(entries[..n]) + [EntryOf(entries[n])]
  {
  }

  lemma {:induction false} WrittenReadsBack(entries: seq<Computed>, lines: seq<string>, header: string, n: nat)
    requires forall c :: c in entries ==> Representable(c)
    requires lines == [header] + LinesOfEntries(entries) && Ignored(TrimEnd(header)) && n <= |entries|
    ensures ReadLines(lines, n + 1) == Ok(EntriesOf(entries[..n]))
  {
    if n == 0 {
      assert ReadLines(lines, 0) == Ok([]);
      assert lines[0] == header;
    } else {
      WrittenReadsBack(entries, lines, header, n - 1);
      assert lines[n] == LinesOfEntries(entries)[n - 1];
      LineAdds(lines, n, entries[n - 1], EntriesOf(entries[..n - 1]));
      EntriesOfNext(entries, n - 1);
    }
  }

  lemma {:induction false} LineAdds(lines: seq<string>, n: nat, c: Computed, before: seq<Entry>)
    requires n < |lines| && lines[n] == LineOf(c) && Representable(c) && ReadLines(lines, n) == Ok(before)
    ensures ReadLines(lines, n + 1) == Ok(before + [EntryOf(c)])
  {
    LineReadsBack(c, n + 1);
  }

  lemma {:induction false} RoundTrip(entries: seq<Computed>, a: Algorithm)
    requires forall c :: c in entries ==> Representable(c)
    ensures Read(Written(entries, a)) == Ok(EntriesOf(entries))
  {
    var h := Header(a);
    assert '\n' !in h;
    assert TrimEnd(h) == h;
    LinesOf(h, Body(entries));
    LinesOfBody(entries);
    WrittenReadsBack(entries, Lines(Written(entries, a)), h, |entries|);
    assert entries[..|entries|] == entries;
  }

  /** Whatever is read has a path and a digest that the writer can represent. */
  lemma {:induction false} LinesHaveNoNewline(s: string)
    ensures forall l :: l in Lines(s) ==> '\n' !in l
    decreases |s|
  {
    if s != [] && |FirstLine(s)| < |s| {
      LinesHaveNoNewline(s[|FirstLine(s)| + 1..]);
    }
  }

  lemma {:induction false} ParsedIsRepresentable(l: string, number: nat)
    requires '\n' !in l && TrimEnd(l) == l && ParseLine(l, number).Ok?
    ensures IsPath(ParseLine(l, number).value.path) && IsDigest(ParseLine(l, number).value.digest)
  {
    var k := FirstSpace(l);
    var path := l[k + 1..][1..];
    assert path == l[k + 2..];
    forall c | c in path
      ensures c in l
    {
    }
    assert path[|path| - 1] == l[|l| - 1];
    LowerKeepsDigests(l[..k]);
  }

  lemma {:induction false} TrimEndStable(l: string)
    ensures TrimEnd(TrimEnd(l)) == TrimEnd(l)
  {
  }

  lemma {:induction false} ReadIsRepresentable(lines: seq<string>, n: nat)
    requires n <= |lines| && forall l :: l in lines ==> '\n' !in l
    requires ReadLines(lines, n).Ok?
    ensures forall e :: e in ReadLines(lines, n).value ==> IsPath(e.path) && IsDigest(e.digest)
  {
    if n > 0 {
      ReadIsRepresentable(lines, n - 1);
      var l := TrimEnd(lines[n - 1]);
      assert lines[n - 1] in lines;
      if !Ignored(l) {
        TrimEndStable(lines[n - 1]);
        ParsedIsRepresentable(l, n);
      }
    }
  }

  /** Reading back what was written gives the same paths and lower-cased digests, in order,
      exactly when every path is non-empty, has no newline and does not end in a carriage
      return, and every digest is hexadecimal and of even, non-zero length. */
  lemma {:induction false} RoundTripIff(entries: seq<Computed>, a: Algorithm)
    ensures Read(Written(entries, a)) == Ok(EntriesOf(entries)) <==> forall c :: c in entries ==> Representable(c)
  {
    if forall c :: c in entries ==> Representable(c) {
      RoundTrip(entries, a);
    }
    if Read(Written(entries, a)) == Ok(EntriesOf(entries)) {
      var lines := Lines(Written(entries, a));
      LinesHaveNoNewline(Written(entries, a));
      ReadIsRepresentable(lines, |lines|);
      forall c | c in entries
        ensures Representable(c)
      {
        var i :| 0 <= i < |entries| && entries[i] == c;
        assert EntriesOf(entries)[i] in EntriesOf(entries);
        LowerKeepsDigests(c.digest);
      }
    }
  }

  // ------------------------------------------------------------- verification

  datatype Status = Match | Mismatch(expected: string, actual: string) | Missing

  /** The computed digests by path, a later one replacing an earlier one. */
  function ByPath(computed: seq<Computed>): map<string, string> {
    if computed == [] then map[]
    else ByPath(computed[..|computed| - 1])[computed[|computed| - 1].path := computed[|computed| - 1].digest]
  }

  function StatusOf(computed: map<string, string>, e: Entry): Status {
    if e.path !in computed then Missing
    else if Lower(computed[e.path]) == Lower(e.digest) then Match
    else Mismatch(e.digest, computed[e.path])
  }

  function Verify(computed: seq<Computed>, recorded: seq<Entry>): (r: seq<Status>)
    ensures |r| == |recorded| && forall i :: 0 <= i < |r| ==> r[i] == StatusOf(ByPath(computed), recorded[i])
  {
    var m := ByPath(computed);
    seq(|recorded|, i requires 0 <= i < |recorded| => StatusOf(m, recorded[i]))
  }

  lemma {:induction false} ByPathMembers(computed: seq<Computed>)
    ensures forall c :: c in computed ==> c.path in ByPath(computed)
    ensures forall p :: p in ByPath(computed) ==> Computed(p, ByPath(computed)[p]) in computed
  {
    if computed != [] {
      ByPathMembers(computed[..|computed| - 1]);
      assert computed == computed[..|computed| - 1] + [computed[|computed| - 1]];
    }
  }

  /** Entries for one path carry one digest, up to case. */
  ghost predicate OneDigestPerPath(entries: seq<Computed>) {
    forall c, d :: c in entries && d in entries && c.path == d.path ==> Lower(c.digest) == Lower(d.digest)
  }

  /** Verifying a written file against the digests it was written from reports nothing but
      matches exactly when no path was written with two different digests. */
  lemma {:induction false} VerifiesIff(entries: seq<Computed>)
    ensures (forall s :: s in Verify(entries, EntriesOf(entries)) ==> s == Match) <==> OneDigestPerPath(entries)
  {
    var r, m := Verify(entries, EntriesOf(entries)), ByPath(entries);
    ByPathMembers(entries);
    if OneDigestPerPath(entries) {
      forall i | 0 <= i < |r|
        ensures r[i] == Match
      {
        LowerKeepsDigests(entries[i].digest);
        assert entries[i] in entries && Computed(entries[i].path, m[entries[i].path]) in entries;
      }
    }
    if forall s :: s in r ==> s == Match {
      forall c, d | c in entries && d in entries && c.path == d.path
        ensures Lower(c.digest) == Lower(d.digest)
      {
        MatchedDigest(entries, c);
        MatchedDigest(entries, d);
      }
    }
  }

  lemma {:induction false} MatchedDigest(entries: seq<Computed>, c: Computed)
    requires c in entries && forall s :: s in Verify(entries, EntriesOf(entries)) ==> s == Match
    ensures c.path in ByPath(entries) && Lower(ByPath(entries)[c.path]) == Lower(c.digest)
  {
    var r := Verify(entries, EntriesOf(entries));
    ByPathMembers(entries);
    var i :| 0 <= i < |entries| && entries[i] == c;
    assert r[i] in r;
    LowerKeepsDigests(c.digest);
  }

  /** A recorded path that was not computed is missing; one that was computed once matches if the
      digests are the same but for case, and otherwise both digests are reported. */
  lemma {:induction false} StatusByDigest(computed: seq<Computed>, recorded: seq<Entry>, i: nat)
    requires i < |recorded|
    ensures (forall c :: c in computed ==> c.path != recorded[i].path) ==> Verify(computed, recorded)[i] == Missing
    ensures forall c :: c in computed && (forall d :: d in computed && d.path == c.path ==> d == c) && c.path == recorded[i].path ==>
              Verify(computed, recorded)[i]
                == if SameButCase(c.digest, recorded[i].digest) then Match else Mismatch(recorded[i].digest, c.digest)
  {
    ByPathMembers(computed);
    forall c | c in computed && c.path == recorded[i].path
      ensures SameButCase(c.digest, recorded[i].digest) <==> Lower(c.digest) == Lower(recorded[i].digest)
    {
      SameButCaseMeans(c.digest, recorded[i].digest);
    }
  }

  /** The same characters, except that an ASCII letter may be upper-case in one text and
      lower-case in the other. */
  predicate SameCharacter(a: char, b: char) {
    || a == b
    || ('A' <= a <= 'Z' && b as int == a as int + 32)
    || ('A' <= b <= 'Z' && a as int == b as int + 32)
  }

  ghost predicate SameButCase(s: string, t: string) {
    |s| == |t| && forall i :: 0 <= i < |s| ==> SameCharacter(s[i], t[i])
  }

  lemma {:induction false} SameButCaseMeans(s: string, t: string)
    ensures SameButCase(s, t) <==> Lower(s) == Lower(t)
  {
    if Lower(s) == Lower(t) {
      forall i | 0 <= i < |s|
        ensures SameCharacter(s[i], t[i])
      {
        assert Lower(s)[i] == Lower(t)[i];
      }
    }
  }

  /** Lower-casing changes nothing but case, and leaves no upper-case letter. */
  lemma {:induction false} LowerIsLower(s: string)
    ensures SameButCase(s, Lower(s)) && forall i :: 0 <= i < |s| ==> !('A' <= Lower(s)[i] <= 'Z')
  {
  }

  /** A digest is written in the sixteen hexadecimal digits, in either case. */
  lemma {:induction false} HexDigits(c: char)
    ensures IsHexDigit(c) <==> c in "0123456789abcdefABCDEF"
  {
  }

  /** The algorithm is known for the two widths that only one algorithm has. */
  lemma {:induction false} WidthsAndNames(width: nat)
    ensures AlgorithmForWidth(width) == match width case 8 => Some(Crc32) case 32 => Some(Md5) case _ => None
    ensures Header(Sha256) == "# sha256" && Header(Blake3) == "# blake3" && Header(Crc32) == "# crc32" && Header(Md5) == "# md5"
  {
  }

  /** What a line with a mode marker reads as: a binary entry for `*`, a text entry for a second
      space, and an error for any other marker, a missing path or a bad digest. */
  lemma {:induction false} LineKinds(digest: string, marker: char, path: string, number: nat)
    requires ' ' !in digest
    ensures ParseLine(digest + " " + ([marker] + path), number)
         == if (marker != '*' && marker != ' ') || path == [] then Err(MalformedLine(number))
            else if !IsDigest(digest) then Err(MalformedDigest(number))
            else Ok(Entry(path, Lower(digest), marker == '*', AlgorithmForWidth(|digest|)))
  {
    ParsedAt(digest, [marker] + path, number);
    assert ([marker] + path)[1..] == path;
  }

  /** A line without a separating space, or with nothing behind it, is malformed. */
  lemma {:induction false} NoSeparator(digest: string, number: nat)
    requires ' ' !in digest
    ensures ParseLine(digest, number) == Err(MalformedLine(number))
    ensures ParseLine(digest + " " + "", number) == Err(MalformedLine(number))
  {
    NoSpace(digest);
    ParsedAt(digest, "", number);
  }

  lemma {:induction false} ParsedAt(digest: string, rest: string, number: nat)
    requires ' ' !in digest
    ensures var l := digest + " " + rest;
            FirstSpace(l) == |digest| < |l| && l[..|digest|] == digest && l[|digest| + 1..] == rest
  {
    FirstSpaceAfter(digest, rest);
  }

  lemma {:induction false} NoSpace(l: string)
    requires ' ' !in l
    ensures FirstSpace(l) == |l|
  {
    if l != [] {
      assert l == [l[0]] + l[1..];
      NoSpace(l[1..]);
    }
  }

  /** Blank lines and comments are passed over, and line endings of either kind end a line. */
  lemma {:induction false} IgnoredLines(lines: seq<string>, n: nat)
    requires n < |lines|
    ensures (forall c :: c in lines[n] ==> c == ' ' || c == '\t' || c == '\r') || (lines[n] != [] && lines[n][0] == '#') ==>
              ReadLines(lines, n + 1) == ReadLines(lines, n)
    ensures forall l :: lines[n] == l + "\r" ==> ReadLines(lines, n + 1) == ReadLines(lines[..n] + [l], n + 1)
  {
    TrimEndStable(lines[n]);
    var t := TrimEnd(lines[n]);
    forall c | c in t
      ensures c in lines[n]
    {
    }
    if lines[n] != [] && lines[n][0] == '#' {
      HashStays(lines[n]);
    }
    forall l | lines[n] == l + "\r"
      ensures ReadLines(lines, n + 1) == ReadLines(lines[..n] + [l], n + 1)
    {
      assert lines[n][..|lines[n]| - 1] == l;
      SameLines(lines, lines[..n] + [l], n);
    }
  }

  lemma {:induction false} HashStays(l: string)
    requires l != [] && l[0] == '#'
    ensures TrimEnd(l) != [] && TrimEnd(l)[0] == '#'
  {
    if l[|l| - 1] == '\r' {
      HashStays(l[..|l| - 1]);
    }
  }

  lemma {:induction false} SameLines(lines: seq<string>, others: seq<string>, n: nat)
    requires n <= |lines| && n <= |others| && lines[..n] == others[..n]
    ensures ReadLines(lines, n) == ReadLines(others, n)
  {
    if n > 0 {
      assert lines[..n][n - 1] == others[..n][n - 1];
      assert lines[..n - 1] == lines[..n][..n - 1] == others[..n][..n - 1] == others[..n - 1];
      SameLines(lines, others, n - 1);
    }
  }
}
