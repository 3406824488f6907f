/** The vault file and the commands that load it, change the dict and save
    it again (tvault.py:76-123, 151-187). GnuPG is abstracted away: the
    file is represented by the plaintext it decrypts to and the passphrase
    it is encrypted under, and the exit status of each gpg run is given. */
module Vault {
  import opened Text
  import opened Failures
  import opened OrderedDict
  import opened Codec
  import opened Sanitizer

  /** The gpg runs of one command: whether the first-run empty write, the
      decryption and the final write exit with status 0, and the
      passphrases typed at the `--symmetric` prompts of the two writes. */
  datatype Gpg = Gpg(bootstrapOk: bool, decryptOk: bool, writeOk: bool,
                     bootstrapPassphrase: string, passphrase: string)

  /** What `decrypt` returns for a vault file in the given state: a missing
      file is first written empty, then gpg decrypts and the text is parsed. */
  function Load(present: bool, plaintext: string, gpg: Gpg): (r: Result<Entries>)
    ensures r == Err(WriteFailed) <==> !present && !gpg.bootstrapOk
    ensures r == Err(WrongPasswordOrCorrupt) <==> (present || gpg.bootstrapOk) && !gpg.decryptOk
    ensures r.Err? ==> r.error in {WriteFailed, WrongPasswordOrCorrupt, CorruptedLine}
  {
    if !present && !gpg.bootstrapOk then Err(WriteFailed)
    else if !gpg.decryptOk then Err(WrongPasswordOrCorrupt)
    else Parse(if present then plaintext else Serialize([]))
  }

  /** A first run loads the empty dict. */
  lemma FirstRunLoadsEmpty(plaintext: string, gpg: Gpg)
    requires gpg.bootstrapOk && gpg.decryptOk
    ensures Load(false, plaintext, gpg) == Ok([])
  {
    FirstRunBootstrap();
  }

  /** Every loaded dict has unique names and storable entries. */
  lemma LoadedStorable(present: bool, plaintext: string, gpg: Gpg)
    requires Load(present, plaintext, gpg).Ok?
    ensures UniqueNames(Load(present, plaintext, gpg).value)
    ensures AllStorable(Load(present, plaintext, gpg).value)
  {
    ParseStorable(if present then plaintext else Serialize([]));
  }

  /** `-add` then a load: the saved text loads back as the dict with that
      one key set to the sanitised secret, provided neither sanitised value
      holds a line boundary; every other key keeps its secret. */
  lemma AddedServiceReadsBack(d: Entries, service: string, secret: string, other: string)
    requires UniqueNames(d) && AllStorable(d)
    requires SanityCheck(service, secret).Ok?
    requires NoBreaks(SanityCheck(service, secret).value.0) && NoBreaks(SanityCheck(service, secret).value.1)
    ensures var (name, key) := SanityCheck(service, secret).value;
            && Parse(Serialize(Set(d, name, key))) == Ok(Set(d, name, key))
            && Lookup(Set(d, name, key), name) == Some(key)
            && (other != name ==> Lookup(Set(d, name, key), other) == Lookup(d, other))
  {
    var (name, key) := SanityCheck(service, secret).value;
    SanitizedStorable(service, secret);
    SetKeepsUnique(d, name, key);
    SetKeepsStorable(d, name, key);
    RoundTrip(Set(d, name, key));
    if other != name {
      SetKeepsOthers(d, name, key, other);
    }
  }

  /** `-add` with a name that still holds a line boundary after trimming
      passes `sanitycheck`, but whatever dict was loaded, the text it saves
      fails to load: the vault is left unreadable. */
  lemma LineBreakInNameCorruptsVault(d: Entries, service: string, secret: string)
    requires AllStorable(d)
    requires SanityCheck(service, secret).Ok?
    requires !NoBreaks(SanityCheck(service, secret).value.0)
    ensures var (name, key) := SanityCheck(service, secret).value;
            Parse(Serialize(Set(d, name, key))).Err?
  {
    var (name, key) := SanityCheck(service, secret).value;
    var e := Entry(name, key);
    forall k | 0 <= k < |d| ensures Names(d)[k] != name {
      assert Storable(d[k]);
    }
    SetAbsent(d, name, key);
    var front, y := RecordLines(d), FormatRecord(e);
    RecordLinesAppend(d, e);
    forall k | 0 <= k < |front| ensures NoBreaks(front[k]) {
      assert Storable(d[k]);
      FormatNoBreaks(d[k]);
    }
    SplitJoinFront(front, y);
    BrokenNameCorrupt(name, key);
    var lines := SplitLines(Serialize(d + [e]));
    assert lines == front + SplitLines(y);
    KindsAt(lines, |front|);
    FailsIffCorruptLine(lines, []);
  }

  /** The name "a\nb" passes `sanitycheck` as it is, so such names reach
      the vault. */
  lemma LineBreakNameSanitized()
    ensures SanityCheck("a\nb", "S") == Ok(("a\nb", "S"))
  {
    var name, key := "a\nb", "S";
    assert name[0] == 'a' && name[|name| - 1] == 'b' && !IsWhitespace('a') && !IsWhitespace('b');
    assert key[0] == 'S' && key[|key| - 1] == 'S' && !IsWhitespace('S');
    assert ':' !in name;
    AcceptedAsGiven(name, key);
  }

  /** A line boundary inside a secret passes `sanitycheck` too, and what
      follows it is saved as a record of its own: adding `name` with the
      secret `k1 + "\n" + n2 + ":" + k2` saves a vault that loads with
      `name` -> `k1` and a second service `n2` -> `k2`. */
  lemma LineBreakInSecretAddsRecord(d: Entries, service: string, secret: string,
                                    name: string, k1: string, n2: string, k2: string)
    requires UniqueNames(d) && AllStorable(d)
    requires SanityCheck(service, secret) == Ok((name, k1 + "\n" + n2 + ":" + k2))
    requires Storable(Entry(name, k1)) && Storable(Entry(n2, k2))
    requires name != n2 && name !in Names(d) && n2 !in Names(d)
    ensures Parse(Serialize(Set(d, name, k1 + "\n" + n2 + ":" + k2))) ==
            Ok(d + [Entry(name, k1), Entry(n2, k2)])
  {
    SecretSplitsInTwo(d, Entry(name, k1 + "\n" + n2 + ":" + k2), Entry(name, k1), Entry(n2, k2));
  }

  /** The record line of `e` is the record lines of `e1` and `e2`, so the
      vault saved with `e` added loads with `e1` and `e2` instead. */
  lemma SecretSplitsInTwo(d: Entries, e: Entry, e1: Entry, e2: Entry)
    requires UniqueNames(d) && AllStorable(d) && Storable(e1) && Storable(e2)
    requires e.name == e1.name && e.secret == e1.secret + "\n" + e2.name + ":" + e2.secret
    requires e1.name != e2.name && e1.name !in Names(d) && e2.name !in Names(d)
    ensures Parse(Serialize(Set(d, e.name, e.secret))) == Ok(d + [e1, e2])
  {
    var two := (d + [e1]) + [e2];
    PairAppend(d, e1, e2);
    SetAbsent(d, e.name, e.secret);
    SavedAsTwo(d, e, e1, e2);
    AppendFresh(d, e1);
    AppendFresh(d + [e1], e2);
    RoundTrip(two);
  }

  lemma PairAppend(d: Entries, e1: Entry, e2: Entry)
    ensures (d + [e1]) + [e2] == d + [e1, e2]
  {
  }

  /** Appending a storable entry under a new name keeps a dict storable
      with unique names. */
  lemma AppendFresh(d: Entries, e: Entry)
    requires UniqueNames(d) && AllStorable(d) && Storable(e) && e.name !in Names(d)
    ensures UniqueNames(d + [e]) && AllStorable(d + [e])
    ensures Names(d + [e]) == Names(d) + [e.name]
  {
    SetAbsent(d, e.name, e.secret);
    SetKeepsUnique(d, e.name, e.secret);
    SetKeepsStorable(d, e.name, e.secret);
    NamesConcat(d, [e]);
  }

  /** Saving `e`, whose secret is `e1`'s secret, a line boundary and the
      record line of `e2`, writes the same text as saving `e1` then `e2`. */
  lemma SavedAsTwo(d: Entries, e: Entry, e1: Entry, e2: Entry)
    requires e.name == e1.name && e.secret == e1.secret + "\n" + e2.name + ":" + e2.secret
    ensures Serialize(d + [e]) == Serialize((d + [e1]) + [e2])
  {
    RecordOfTwo(e, e1, e2);
    SerializeAppend(d, e);
    SerializeAppend(d, e1);
    SerializeAppend(d + [e1], e2);
    if d == [] {
      assert d + [e] == [e] && d + [e1] == [e1];
    } else {
      Regroup(Serialize(d), FormatRecord(e), FormatRecord(e1), FormatRecord(e2));
    }
  }

  lemma RecordOfTwo(e: Entry, e1: Entry, e2: Entry)
    requires e.name == e1.name && e.secret == e1.secret + "\n" + e2.name + ":" + e2.secret
    ensures FormatRecord(e) == FormatRecord(e1) + "\n" + FormatRecord(e2)
  {
  }

  lemma Regroup(s: string, l: string, l1: string, l2: string)
    requires l == l1 + "\n" + l2
    ensures s + "\n" + l == (s + "\n" + l1) + "\n" + l2
  {
  }

  /** The secret "X\nevil:Y" passes `sanitycheck` as it is. */
  lemma LineBreakSecretSanitized()
    ensures SanityCheck("github", "X\nevil:Y") == Ok(("github", "X\nevil:Y"))
  {
    var name, key := "github", "X\nevil:Y";
    assert name[0] == 'g' && name[|name| - 1] == 'b' && !IsWhitespace('g') && !IsWhitespace('b');
    assert key[0] == 'X' && key[|key| - 1] == 'Y' && !IsWhitespace('X') && !IsWhitespace('Y');
    assert ':' !in name;
    AcceptedAsGiven(name, key);
  }

  /** `-del` then a load: the key is gone and nothing else changed. */
  lemma DeletedServiceGone(d: Entries, service: string)
    requires UniqueNames(d) && AllStorable(d)
    ensures Parse(Serialize(Remove(d, service))) == Ok(Remove(d, service))
    ensures Lookup(Remove(d, service), service) == None
  {
    RemoveKeepsUnique(d, service);
    RemoveKeepsStorable(d, service);
    RoundTrip(Remove(d, service));
  }

  lemma {:induction false} RemoveKeepsStorable(d: Entries, name: string)
    requires AllStorable(d)
    ensures AllStorable(Remove(d, name))
  {
    if d != [] {
      RemoveKeepsStorable(d[1..], name);
    }
  }

  class VaultFile {
    /** `os.path.exists(vaultpath)` */
    var present: bool
    /** What `gpg --decrypt` of the file yields. */
    var plaintext: string
    /** The passphrase the file is encrypted under. */
    var passphrase: string

    constructor (present: bool, plaintext: string, passphrase: string)
      ensures this.present == present && this.plaintext == plaintext && this.passphrase == passphrase
    {
      this.present := present;
      this.plaintext := plaintext;
      this.passphrase := passphrase;
    }

    /** The file after `decrypt`, whatever it returned: written empty when
        it was missing and the empty write succeeded, otherwise untouched. */
    twostate predicate LoadAttempted(gpg: Gpg)
      reads this
    {
      var wrote := !old(present) && gpg.bootstrapOk;
      && present == (old(present) || gpg.bootstrapOk)
      && plaintext == (if wrote then Serialize([]) else old(plaintext))
      && passphrase == (if wrote then gpg.bootstrapPassphrase else old(passphrase))
    }

    /** The file after the final `encrypt` of a command that loaded
        successfully and changed the dict to `services`. */
    twostate predicate Saved(services: Entries, gpg: Gpg, new r: Result<()>)
      reads this
    {
      if gpg.writeOk then
        r == Ok(()) && present && plaintext == Serialize(services) && passphrase == gpg.passphrase
      else
        r == Err(WriteFailed) && LoadAttempted(gpg)
    }

    /** `encrypt` (tvault.py:151-160): the whole file is rewritten with the
        serialised dict, or nothing happens and the write fails. */
    method Encrypt(services: Entries, exitOk: bool, newPassphrase: string) returns (r: Result<()>)
      modifies this
      ensures exitOk ==> r == Ok(()) && present && plaintext == Serialize(services) && passphrase == newPassphrase
      ensures !exitOk ==> r == Err(WriteFailed) && unchanged(this)
    {
      if !exitOk {
        return Err(WriteFailed);
      }
      present, plaintext, passphrase := true, Serialize(services), newPassphrase;
      r := Ok(());
    }

    /** `decrypt` (tvault.py:163-187). */
    method Decrypt(gpg: Gpg) returns (r: Result<Entries>)
      modifies this
      ensures r == Load(old(present), old(plaintext), gpg)
      ensures LoadAttempted(gpg)
    {
      if !present {
        var w := Encrypt([], gpg.bootstrapOk, gpg.bootstrapPassphrase);
        if w.Err? {
          return Err(w.error);
        }
      }
      if !gpg.decryptOk {
        return Err(WrongPasswordOrCorrupt);
      }
      r := ParseRecords(plaintext);
    }

    /** `listservices` (tvault.py:76-84): the names, in dict order. */
    method ListServices(gpg: Gpg) returns (r: Result<seq<string>>)
      modifies this
      ensures LoadAttempted(gpg)
      ensures var loaded := Load(old(present), old(plaintext), gpg);
              r == if loaded.Ok? then Ok(Names(loaded.value)) else Err(loaded.error)
    {
      var services := Decrypt(gpg);
      if services.Err? {
        return Err(services.error);
      }
      r := Ok(Names(services.value));
    }

    /** `addservice` (tvault.py:87-92): sanitise before touching the file,
        then set exactly that key and save. */
    method AddService(service: string, secret: string, gpg: Gpg) returns (r: Result<()>)
      modifies this
      ensures SanityCheck(service, secret).Err? ==>
                r == Err(SanityCheck(service, secret).error) && unchanged(this)
      ensures SanityCheck(service, secret).Ok? ==>
                var (name, key) := SanityCheck(service, secret).value;
                var loaded := Load(old(present), old(plaintext), gpg);
                if loaded.Err? then r == Err(loaded.error) && LoadAttempted(gpg)
                else Saved(Set(loaded.value, name, key), gpg, r)
    {
      var checked := SanityCheck(service, secret);
      if checked.Err? {
        return Err(checked.error);
      }
      var (name, key) := checked.value;
      var services := Decrypt(gpg);
      if services.Err? {
        return Err(services.error);
      }
      var updated := Set(services.value, name, key);
      r := Encrypt(updated, gpg.writeOk, gpg.passphrase);
    }

    /** `deleteservice` (tvault.py:95-102): an absent name fails before any
        write; otherwise exactly that key is removed and the dict saved. */
    method DeleteService(service: string, gpg: Gpg) returns (r: Result<()>)
      modifies this
      ensures var loaded := Load(old(present), old(plaintext), gpg);
              if loaded.Err? then r == Err(loaded.error) && LoadAttempted(gpg)
              else if service !in Names(loaded.value) then r == Err(NotFound(service)) && LoadAttempted(gpg)
              else Saved(Remove(loaded.value, service), gpg, r)
    {
      var services := Decrypt(gpg);
      if services.Err? {
        return Err(services.error);
      }
      if service !in Names(services.value) {
        return Err(NotFound(service));
      }
      var updated := Remove(services.value, service);
      r := Encrypt(updated, gpg.writeOk, gpg.passphrase);
    }

    /** `changepassword` (tvault.py:105-108): the loaded dict is saved
        unchanged under the passphrase typed at gpg's prompt. */
    method ChangePassword(gpg: Gpg) returns (r: Result<()>)
      modifies this
      ensures var loaded := Load(old(present), old(plaintext), gpg);
              if loaded.Err? then r == Err(loaded.error) && LoadAttempted(gpg)
              else Saved(loaded.value, gpg, r)
    {
      var services := Decrypt(gpg);
      if services.Err? {
        return Err(services.error);
      }
      r := Encrypt(services.value, gpg.writeOk, gpg.passphrase);
    }

    /** `generatetotp` (tvault.py:111-123) up to the clipboard: look the
        name up and hand its secret to oathtool, whose output (None for a
        non-zero exit status) is given; the code is that output stripped. */
    method GenerateTotp(service: string, gpg: Gpg, oathtool: string -> Option) returns (r: Result<string>)
      modifies this
      ensures LoadAttempted(gpg)
      ensures var loaded := Load(old(present), old(plaintext), gpg);
              if loaded.Err? then r == Err(loaded.error)
              else match Lookup(loaded.value, service)
                case None => r == Err(NotFound(service))
                case Some(secret) =>
                  if oathtool(secret).None? then r == Err(OathtoolFailed)
                  else r == Ok(Strip(oathtool(secret).value))
    {
      var services := Decrypt(gpg);
      if services.Err? {
        return Err(services.error);
      }
      var secret := Lookup(services.value, service);
      if secret.None? {
        return Err(NotFound(service));
      }
      var out := oathtool(secret.value);
      if out.None? {
        return Err(OathtoolFailed);
      }
      r := Ok(Strip(out.value));
    }
  }
}
