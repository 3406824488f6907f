/** The plaintext format of the vault: one `name:secret` record per line.
    `Serialize` is the text `encrypt` hands to gpg (tvault.py:155) and
    `Parse` / `ParseRecords` is the loop in `decrypt` that reads it back
    (tvault.py:178-185). */
module Codec {
  import opened Text
  import opened OrderedDict
  import opened Failures

  /** What one line of decrypted text contributes to the load. */
  datatype Line = Skipped | Record(name: string, secret: string) | Corrupt

  /** `f"{name}:{services[name]}"`. */
  function FormatRecord(e: Entry): (line: string)
    ensures |line| == |e.name| + 1 + |e.secret|
    ensures line[..|e.name|] == e.name && line[|e.name|] == ':' && line[|e.name| + 1..] == e.secret
  {
    e.name + ":" + e.secret
  }

  /** The lines the generator yields, one per entry in dict order. */
  function RecordLines(d: Entries): (lines: seq<string>)
    ensures |lines| == |d|
    ensures forall i :: 0 <= i < |d| ==> lines[i] == FormatRecord(d[i])
  {
    if d == [] then [] else [FormatRecord(d[0])] + RecordLines(d[1..])
  }

  /** `'\n'.join(f"{name}:{services[name]}" for name in services)`. */
  function Serialize(d: Entries): (text: string)
    ensures text == [] <==> d == []
    ensures d != [] ==> FormatRecord(d[0]) <= text
  {
    JoinLines(RecordLines(d))
  }

  /** One line of the load loop: strip it; skip it when it is empty or
      starts with ';'; otherwise split it at the FIRST ':' and fail when
      there is no ':' or nothing after it. An empty name is accepted. */
  function ParseLine(raw: string): (r: Line)
    ensures r.Skipped? <==> Strip(raw) == [] || Strip(raw)[0] == ';'
    ensures r.Record? ==> Strip(raw) == r.name + ":" + r.secret && ':' !in r.name && r.secret != []
  {
    var line := Strip(raw);
    if line == [] || line[0] == ';' then Skipped
    else
      var (name, found, secret) := Partition(line, ':');
      if !found || secret == [] then Corrupt else Record(name, secret)
  }

  /** A line that is not skipped is corrupt exactly when it has no ':' or
      its only ':' is its last character. */
  lemma CorruptLineIff(raw: string)
    ensures ParseLine(raw).Corrupt? <==>
      var line := Strip(raw);
      line != [] && line[0] != ';' &&
      (':' !in line || (line[|line| - 1] == ':' && ':' !in line[..|line| - 1]))
  {
    var line := Strip(raw);
    if line != [] {
      NoSecretIff(line);
    }
  }

  /** The split of a non-empty line leaves nothing after the ':' (or finds
      none) exactly when its only ':' is its last character (or it has none). */
  lemma NoSecretIff(line: string)
    requires line != []
    ensures (!Partition(line, ':').1 || Partition(line, ':').2 == []) <==>
            (':' !in line || (line[|line| - 1] == ':' && ':' !in line[..|line| - 1]))
  {
    var (name, found, secret) := Partition(line, ':');
    if found && secret == [] {
      assert line[..|line| - 1] == name;
    } else if found {
      assert line[|name|] == ':' && |name| < |line| - 1;
      assert line[..|line| - 1][|name|] == ':';
    }
  }

  /** A stripped line `name:secret` with no ':' in `name`, a non-empty
      `secret` and no leading ';' is read as that record. */
  lemma ParseLineRecord(raw: string, name: string, secret: string)
    requires Strip(raw) == name + ":" + secret
    requires ':' !in name && secret != [] && Strip(raw)[0] != ';'
    ensures ParseLine(raw) == Record(name, secret)
  {
    PartitionAt(Strip(raw), ':', name, secret);
  }

  /** The load loop over the remaining `lines`, with the records read so
      far in `services`. A corrupt line fails the whole load. */
  function ParseLines(lines: seq<string>, services: Entries): (r: Result<Entries>)
    ensures r.Err? ==> r.error == CorruptedLine
    decreases |lines|
  {
    if lines == [] then Ok(services)
    else
      match ParseLine(lines[0])
      case Skipped => ParseLines(lines[1..], services)
      case Corrupt => Err(CorruptedLine)
      case Record(name, secret) => ParseLines(lines[1..], Set(services, name, secret))
  }

  /** The whole load: the empty text is the empty dict, and the only way
      it fails is a corrupt line. */
  function Parse(text: string): (r: Result<Entries>)
    ensures text == [] ==> r == Ok([])
    ensures r.Err? ==> r.error == CorruptedLine
  {
    ParseLines(SplitLines(text), [])
  }

  /** The loop of `decrypt` (tvault.py:178-185), building `services` in
      place and leaving at the first corrupt line. */
  method ParseRecords(text: string) returns (r: Result<Entries>)
    ensures r == Parse(text)
  {
    var lines := SplitLines(text);
    var services: Entries := [];
    var i := 0;
    while i < |lines|
      invariant 0 <= i <= |lines|
      invariant ParseLines(lines[i..], services) == Parse(text)
    {
      assert lines[i..][0] == lines[i] && lines[i..][1..] == lines[i + 1..];
      var line := Strip(lines[i]);
      if line == [] || line[0] == ';' {
        i := i + 1;
        continue;
      }
      var (name, sep, secret) := Partition(line, ':');
      if !sep || secret == [] {
        return Err(CorruptedLine);
      }
      services := Set(services, name, secret);
      i := i + 1;
    }
    assert lines[i..] == [];
    r := Ok(services);
  }

  /** An entry whose record line reads back as itself: the shape of every
      entry a successful load produces. */
  predicate Storable(e: Entry) {
    && NoBreaks(e.name) && NoBreaks(e.secret)
    && ':' !in e.name
    && (e.name == [] || (!IsWhitespace(e.name[0]) && e.name[0] != ';'))
    && e.secret != [] && !IsWhitespace(e.secret[|e.secret| - 1])
  }

  predicate AllStorable(d: Entries) {
    forall i :: 0 <= i < |d| ==> Storable(d[i])
  }

  /** First run: the empty vault is the empty text, which loads as the
      empty dict (tvault.py:166-168). */
  lemma FirstRunBootstrap()
    ensures Serialize([]) == []
    ensures Parse(Serialize([])) == Ok([])
  {
  }

  /** The record lines of one more entry end with its line. */
  lemma RecordLinesAppend(d: Entries, e: Entry)
    ensures RecordLines(d + [e]) == RecordLines(d) + [FormatRecord(e)]
  {
    var l, r := RecordLines(d + [e]), RecordLines(d) + [FormatRecord(e)];
    assert |l| == |r|;
    forall k | 0 <= k < |l| ensures l[k] == r[k] {
      assert (d + [e])[k] == if k < |d| then d[k] else e;
    }
  }

  /** The serialiser's text, built from the end: one entry is its line
      alone, and each further entry adds "\n" and its line, so the records
      are joined by "\n" with nothing after the last. */
  lemma SerializeAppend(d: Entries, e: Entry)
    ensures Serialize([e]) == FormatRecord(e)
    ensures d != [] ==> Serialize(d + [e]) == Serialize(d) + "\n" + FormatRecord(e)
  {
    RecordLinesAppend([], e);
    assert [] + [e] == [e];
    RecordLinesAppend(d, e);
    if d != [] {
      JoinAppend(RecordLines(d), FormatRecord(e));
    }
  }

  /** A name holding a line boundary, though not at its front, and with no
      ':' or leading ';', cuts its own record line short: the first line
      `splitlines` gives is part of the name alone, which reads as
      corrupt. */
  lemma BrokenNameCorrupt(name: string, secret: string)
    requires name != [] && !IsWhitespace(name[0]) && name[0] != ';'
    requires ':' !in name && !NoBreaks(name)
    ensures var lines := SplitLines(FormatRecord(Entry(name, secret)));
            lines != [] && ParseLine(lines[0]) == Corrupt
  {
    var i := FirstBreak(name);
    var k :| 0 <= k < |name| && IsLineBreak(name[k]);
    assert i <= k;
    assert i > 0;
    assert FormatRecord(Entry(name, secret)) == name + (":" + secret);
    FirstLineOf(name, ":" + secret);
    var line := name[..i];
    assert line[0] == name[0] && ':' !in line;
    NoColonCorrupt(line);
  }

  /** A line that does not start with whitespace or ';' and holds no ':'
      is corrupt. */
  lemma NoColonCorrupt(line: string)
    requires line != [] && !IsWhitespace(line[0]) && line[0] != ';' && ':' !in line
    ensures ParseLine(line) == Corrupt
  {
    StripKeepsFront(line);
    var stripped := Strip(line);
    assert stripped[0] == line[0];
    assert ':' !in stripped by {
      forall j | 0 <= j < |stripped| ensures stripped[j] != ':' {
        assert stripped[j] == line[j];
      }
    }
    CorruptLineIff(line);
  }

  lemma FormatNoBreaks(e: Entry)
    requires NoBreaks(e.name) && NoBreaks(e.secret)
    ensures NoBreaks(FormatRecord(e))
  {
    var l := FormatRecord(e);
    assert forall k :: 0 <= k < |e.name| ==> l[k] == e.name[k];
    assert forall k :: |e.name| < k < |l| ==> l[k] == e.secret[k - |e.name| - 1];
  }

  /** The serialiser writes exactly one `name:secret` line per entry, in
      dict order: splitting its output at line boundaries gives them back. */
  lemma SerializeLines(d: Entries)
    requires forall i :: 0 <= i < |d| ==> NoBreaks(d[i].name) && NoBreaks(d[i].secret)
    ensures SplitLines(Serialize(d)) == RecordLines(d)
  {
    var lines := RecordLines(d);
    forall k | 0 <= k < |lines| ensures NoBreaks(lines[k]) {
      FormatNoBreaks(d[k]);
    }
    SplitJoin(lines);
  }

  /** A storable entry's line parses to exactly that entry. */
  lemma FormatParses(e: Entry)
    requires Storable(e)
    ensures ParseLine(FormatRecord(e)) == Record(e.name, e.secret)
  {
    FormatUnpadded(e);
    ParseLineRecord(FormatRecord(e), e.name, e.secret);
  }

  /** A storable entry's line has no surrounding whitespace and does not
      start with ';'. */
  lemma FormatUnpadded(e: Entry)
    requires Storable(e)
    ensures Strip(FormatRecord(e)) == FormatRecord(e) && FormatRecord(e)[0] != ';'
  {
    var line := FormatRecord(e);
    assert line[0] == if e.name == [] then ':' else e.name[0];
    assert line[|line| - 1] == e.secret[|e.secret| - 1];
    assert !IsWhitespace(line[0]) && !IsWhitespace(line[|line| - 1]);
  }

  lemma NamesConcat(a: Entries, b: Entries)
    ensures Names(a + b) == Names(a) + Names(b)
  {
  }

  lemma ConsAppend(acc: Entries, d: Entries)
    requires d != []
    ensures (acc + [d[0]]) + d[1..] == acc + d
  {
    assert d == [d[0]] + d[1..];
  }

  lemma DistinctApart(a: seq<string>, b: seq<string>)
    requires Distinct(a + b) && b != []
    ensures b[0] !in a
  {
    forall k | 0 <= k < |a| ensures a[k] != b[0] {
      assert (a + b)[k] == a[k] && (a + b)[|a|] == b[0];
    }
  }

  lemma {:induction false} ParseRecordLines(acc: Entries, d: Entries)
    requires UniqueNames(acc + d) && AllStorable(d)
    ensures ParseLines(RecordLines(d), acc) == Ok(acc + d)
    decreases |d|
  {
    if d == [] {
      assert acc + d == acc;
    } else {
      var e := d[0];
      AllStorableTail(d);
      RecordStep(acc, d);
      FirstNameFresh(acc, d);
      SetAbsent(acc, e.name, e.secret);
      ConsAppend(acc, d);
      ParseRecordLines(acc + [e], d[1..]);
    }
  }

  /** The load loop reads the first record line of a storable dict as its
      first entry. */
  lemma RecordStep(acc: Entries, d: Entries)
    requires d != [] && Storable(d[0])
    ensures ParseLines(RecordLines(d), acc) == ParseLines(RecordLines(d[1..]), Set(acc, d[0].name, d[0].secret))
  {
    var lines := RecordLines(d);
    assert lines[0] == FormatRecord(d[0]);
    assert lines[1..] == RecordLines(d[1..]);
    FormatParses(d[0]);
  }

  lemma FirstNameFresh(acc: Entries, d: Entries)
    requires UniqueNames(acc + d) && d != []
    ensures d[0].name !in Names(acc)
  {
    NamesConcat(acc, d);
    DistinctApart(Names(acc), Names(d));
  }

  lemma AllStorableTail(d: Entries)
    requires d != [] && AllStorable(d)
    ensures Storable(d[0]) && AllStorable(d[1..])
  {
    forall i | 0 <= i < |d[1..]| ensures Storable(d[1..][i]) {
      assert d[1..][i] == d[i + 1];
    }
  }

  /** Round trip: a dict with unique names whose entries are storable is
      loaded back exactly, order included, from its serialisation. */
  lemma RoundTrip(d: Entries)
    requires UniqueNames(d) && AllStorable(d)
    ensures Parse(Serialize(d)) == Ok(d)
  {
    SerializeLines(d);
    ParseRecordLines([], d);
    assert [] + d == d;
  }

  /** A record line read from decrypted text is storable. */
  lemma RecordStorable(raw: string)
    requires NoBreaks(raw) && ParseLine(raw).Record?
    ensures Storable(Entry(ParseLine(raw).name, ParseLine(raw).secret))
  {
    StripKeepsNoBreaks(raw);
    var r := ParseLine(raw);
    StorableParts(Strip(raw), r.name, r.secret);
  }

  lemma StorableParts(line: string, name: string, secret: string)
    requires line == name + ":" + secret && NoBreaks(line)
    requires !IsWhitespace(line[0]) && line[0] != ';' && !IsWhitespace(line[|line| - 1])
    requires ':' !in name && secret != []
    ensures Storable(Entry(name, secret))
  {
    assert forall k :: 0 <= k < |name| ==> name[k] == line[k];
    assert forall k :: 0 <= k < |secret| ==> secret[k] == line[|name| + 1 + k];
  }

  /** Whatever a successful load returns has unique names and storable
      entries. */
  lemma {:induction false} ParseLinesStorable(lines: seq<string>, acc: Entries)
    requires forall k :: 0 <= k < |lines| ==> NoBreaks(lines[k])
    requires UniqueNames(acc) && AllStorable(acc)
    requires ParseLines(lines, acc).Ok?
    ensures UniqueNames(ParseLines(lines, acc).value) && AllStorable(ParseLines(lines, acc).value)
  {
    if lines != [] {
      match ParseLine(lines[0])
      case Skipped =>
        ParseLinesStorable(lines[1..], acc);
      case Record(name, secret) =>
        AddRecordStorable(acc, lines[0]);
        ParseLinesStorable(lines[1..], Set(acc, name, secret));
    }
  }

  lemma AddRecordStorable(acc: Entries, line: string)
    requires UniqueNames(acc) && AllStorable(acc)
    requires NoBreaks(line) && ParseLine(line).Record?
    ensures var e := ParseLine(line);
            UniqueNames(Set(acc, e.name, e.secret)) && AllStorable(Set(acc, e.name, e.secret))
  {
    var e := ParseLine(line);
    RecordStorable(line);
    SetKeepsUnique(acc, e.name, e.secret);
    SetKeepsStorable(acc, e.name, e.secret);
  }

  lemma {:induction false} SetKeepsStorable(d: Entries, name: string, secret: string)
    requires AllStorable(d) && Storable(Entry(name, secret))
    ensures AllStorable(Set(d, name, secret))
  {
    if d != [] && d[0].name != name {
      SetKeepsStorable(d[1..], name, secret);
    }
  }

  lemma ParseStorable(text: string)
    requires Parse(text).Ok?
    ensures UniqueNames(Parse(text).value) && AllStorable(Parse(text).value)
  {
    ParseLinesStorable(SplitLines(text), []);
  }

  /** Re-serialising a loaded dict loads back to the same dict: what the
      password change writes holds the same services. */
  lemma ReloadAfterRewrite(text: string)
    requires Parse(text).Ok?
    ensures Parse(Serialize(Parse(text).value)) == Parse(text)
  {
    ParseStorable(text);
    RoundTrip(Parse(text).value);
  }

  /** What `-chpass` writes back is canonical: one record line per service,
      in dict order, each without surrounding whitespace and read back as
      its entry, under distinct names. Blank lines, comments, repeated
      names and padding of the text it was loaded from are gone. */
  lemma RewriteIsCanonical(text: string)
    requires Parse(text).Ok?
    ensures var d := Parse(text).value;
            var lines := SplitLines(Serialize(d));
            && |lines| == |d| && UniqueNames(d)
            && forall k :: 0 <= k < |lines| ==>
                 Strip(lines[k]) == lines[k] && ParseLine(lines[k]) == Record(d[k].name, d[k].secret)
  {
    var d := Parse(text).value;
    ParseStorable(text);
    SerializeLines(d);
    forall k | 0 <= k < |d|
      ensures Strip(RecordLines(d)[k]) == RecordLines(d)[k]
      ensures ParseLine(RecordLines(d)[k]) == Record(d[k].name, d[k].secret)
    {
      FormatUnpadded(d[k]);
      FormatParses(d[k]);
    }
  }

  /** How each line reads on its own. */
  function Kinds(lines: seq<string>): (kinds: seq<Line>)
    ensures |kinds| == |lines|
  {
    if lines == [] then [] else [ParseLine(lines[0])] + Kinds(lines[1..])
  }

  lemma {:induction false} KindsAt(lines: seq<string>, i: nat)
    requires i < |lines|
    ensures Kinds(lines)[i] == ParseLine(lines[i])
  {
    if i > 0 {
      KindsAt(lines[1..], i - 1);
      assert lines[1..][i - 1] == lines[i];
    }
  }

  /** A load fails if and only if some line is corrupt, however many good
      lines come before it. */
  lemma {:induction false} FailsIffCorruptLine(lines: seq<string>, acc: Entries)
    ensures ParseLines(lines, acc).Err? <==> Corrupt in Kinds(lines)
  {
    if lines != [] {
      assert Kinds(lines) == [ParseLine(lines[0])] + Kinds(lines[1..]);
      match ParseLine(lines[0])
      case Corrupt =>
      case Skipped =>
        FailsIffCorruptLine(lines[1..], acc);
      case Record(name, secret) =>
        FailsIffCorruptLine(lines[1..], Set(acc, name, secret));
    }
  }

  /** Independent reading of "later lines overwrite earlier ones": the
      secret on the LAST record line for `name`, if any. */
  function LastRecord(lines: seq<string>, name: string): Option
    decreases |lines|
  {
    if lines == [] then None
    else
      var later := LastRecord(lines[1..], name);
      if later.Some? then later
      else match ParseLine(lines[0])
        case Record(n, s) => if n == name then Some(s) else None
        case _ => None
  }

  /** After a successful load each name holds the secret of its last
      record line (or what it held before, when no line names it). */
  lemma {:induction false} LastLineWins(lines: seq<string>, acc: Entries, name: string)
    requires ParseLines(lines, acc).Ok?
    ensures Lookup(ParseLines(lines, acc).value, name) ==
            if LastRecord(lines, name).Some? then LastRecord(lines, name) else Lookup(acc, name)
  {
    if lines != [] {
      match ParseLine(lines[0])
      case Skipped =>
        LastLineWins(lines[1..], acc, name);
      case Record(n, s) =>
        LastLineWins(lines[1..], Set(acc, n, s), name);
        if n != name {
          SetKeepsOthers(acc, n, s, name);
        }
    }
  }

  /** Blank lines and ';' comment lines can be inserted anywhere without
      changing the result of a load. */
  lemma {:induction false} SkippedLineIrrelevant(before: seq<string>, skipped: string, after: seq<string>, acc: Entries)
    requires ParseLine(skipped).Skipped?
    ensures ParseLines(before + [skipped] + after, acc) == ParseLines(before + after, acc)
  {
    if before == [] {
      assert (before + [skipped] + after)[1..] == after;
      assert before + after == after;
    } else {
      var l := before[0];
      assert (before + [skipped] + after)[0] == l && (before + after)[0] == l;
      assert (before + [skipped] + after)[1..] == before[1..] + [skipped] + after;
      assert (before + after)[1..] == before[1..] + after;
      match ParseLine(l)
      case Skipped =>
        SkippedLineIrrelevant(before[1..], skipped, after, acc);
      case Corrupt =>
      case Record(n, s) =>
        SkippedLineIrrelevant(before[1..], skipped, after, Set(acc, n, s));
    }
  }

  /** The split is at the first ':' only, so a secret may hold ':'. */
  lemma SecretMayHoldColon()
    ensures ParseLine("github:AB:CD") == Record("github", "AB:CD")
  {
    var line, name, secret := "github:AB:CD", "github", "AB:CD";
    assert line == name + ":" + secret && ':' !in name;
    assert line[0] == 'g' && line[|line| - 1] == 'D' && !IsWhitespace('g') && !IsWhitespace('D');
    UnpaddedRecord(line, name, secret);
  }

  /** Nothing rejects an empty name before the ':'. */
  lemma EmptyNameAccepted()
    ensures ParseLine(":SECRET") == Record("", "SECRET")
  {
    var line, secret := ":SECRET", "SECRET";
    assert line == [] + ":" + secret;
    assert line[0] == ':' && line[|line| - 1] == 'T' && !IsWhitespace(':') && !IsWhitespace('T');
    UnpaddedRecord(line, [], secret);
  }

  /** A line with no surrounding whitespace and no leading ';' is read as
      the split at its first ':'. */
  lemma UnpaddedRecord(line: string, name: string, secret: string)
    requires line == name + ":" + secret && ':' !in name && secret != []
    requires !IsWhitespace(line[0]) && line[0] != ';' && !IsWhitespace(line[|line| - 1])
    ensures ParseLine(line) == Record(name, secret)
  {
    ParseLineRecord(line, name, secret);
  }
}
