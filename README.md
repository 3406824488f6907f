# TVault vault model in Dafny

TVault is a command-line script that keeps TOTP secret keys in a
GnuPG-encrypted vault file and generates one-time codes with oathtool. This
project models the logic of `tvault.py` and proves properties about it:

- **Record codec** (`codec.dfy`). The serialiser writes one `name:secret`
  line per service, in dict insertion order, joined by `\n`. The load loop
  strips each line and skips blank lines and `;` comments. It splits the
  rest at the first `:`. A line with no `:`, or with nothing after it,
  fails the whole load. A later line for the same name overwrites an
  earlier one.
- **Sanitizer** (`sanitizer.dfy`). `sanitycheck` trims the name and the
  secret. It refuses an empty value, a name holding `:`, and a name
  starting with `;` or `-`.
- **Vault commands** (`vault.dfy`). `VaultFile` is a class whose fields are
  the vault file's state. Its methods are `encrypt` and `decrypt`, and the
  commands built on them. `addservice` and `deleteservice` load the
  dict, change it and save it. `changepassword` loads the dict and saves
  it unchanged under a newly typed passphrase. `listservices`
  and `generatetotp` only load it, so the only write they can cause is the
  first-run empty vault.
- **Dispatcher** (`dispatch.dfy`). This covers the `__main__`
  argument-count guard, the `match args[0], len(args)` table of `run`, the
  tool check that comes before any vault access, and `run` carried out
  against a `VaultFile`.
- **Path and tool helpers** (`environment.dfy`). These are `gettoolpaths`
  and `getvaultpath`. `shutil.which`, `os.path.isdir` and the home
  directory are passed in as parameters.

Supporting modules:

- `text.dfy` holds Python's `str.strip`, `str.splitlines`, `'\n'.join` and
  `str.partition`. The whitespace and line-boundary character sets are
  written out code point by code point.
- `ordered_dict.dfy` holds the insertion-ordered dict. It is an
  association list, so the serialiser's order is part of the model.
- `failures.dfy` holds the errors `tvault.py` reports through `error()`. There is one per call site, except that both not-found checks share `NotFound`.

How GnuPG is abstracted: a `VaultFile` is the plaintext the file decrypts
to, the passphrase it is encrypted under, and whether it exists. One
command runs up to three gpg processes: the first-run empty write, the
decryption, and the final write. A `Gpg` value gives the exit status of
each one. It also gives the passphrase typed at each of the two
`--symmetric` prompts: the first-run write's, and the final write's.
gpg's `--output` writes the vault directly to its path, so a write
replaces the whole file. oathtool is a function that gives the tool's
output, or `None` for a non-zero exit status.

Proved consequences of the code as written:

- A first run loads the empty dict.
- Adding a service and loading again gives back exactly that key set to the
  trimmed secret, when neither trimmed value holds a line boundary
  (`AddedServiceReadsBack`). Every other key keeps its value.
- Deleting an absent name fails with not-found. The vault is not
  rewritten; on a first run the empty vault is still created.
- Changing the password rewrites the same services
  (`ReloadAfterRewrite`). The text it writes has one record line per
  service, each without padding, under distinct names. Comments, blank
  lines and repeated names of the old text are gone
  (`RewriteIsCanonical`).
- A name or secret holding a line break inside it passes `sanitycheck`
  (`SanityAcceptsIff`; `LineBreakNameSanitized` for the name `a\nb`).
  Adding a service whose trimmed name holds a line break, to any dict a
  load can return, saves a vault whose next load fails
  (`LineBreakInNameCorruptsVault`). A secret may hold a line break too
  (`LineBreakSecretSanitized` for the secret `X\nevil:Y`). What follows the
  break is saved as a record of its own: adding `github` with the secret
  `X\nevil:Y` to a dict without `github` or `evil` saves a vault that
  loads with `github` mapped to `X` and a new service `evil` mapped to `Y`
  (`LineBreakInSecretAddsRecord`). A line break at either end is trimmed
  away and does no harm.
- Names are restricted only by `sanitycheck`'s rules: not empty, no `:`,
  no leading `;` or `-`. Secrets are only required to be non-empty
  (`PunctuationAccepted`).

## Model

| member | source | states |
|---|---|---|
| `Text.Strip` | tvault.py:192 | the result is the input with only whitespace cut from its two ends; it has no leading or trailing whitespace, and an input without surrounding whitespace comes back unchanged |
| `Text.StripIdempotent` | tvault.py:192 | stripping a stripped string changes nothing |
| `Text.SplitLines` | tvault.py:178 | no line it returns holds a line boundary, and there are no lines exactly for the empty text |
| `Text.SplitLinesContent` | tvault.py:178 | for any text, the lines put together are the text without its boundary characters, and there is one line per boundary (`\r\n` counted once) plus one for a last line not ended by a boundary |
| `Text.SplitAtBreak` | tvault.py:178 | a boundary-free line followed by one boundary character (other than a `\r` before `\n`) splits off as the first line, and the rest splits on its own |
| `Text.SplitAtCrLf` | tvault.py:178 | a boundary-free line followed by `\r\n` splits off as the first line, and the rest splits on its own |
| `Text.SplitWhole` | tvault.py:178 | a non-empty text without boundaries is a single line |
| `Text.SplitJoinFront` | tvault.py:178 | boundary-free lines joined by `\n` in front of a last text split back into themselves followed by that text's lines |
| `Text.JoinLines` | tvault.py:155 | joining no lines gives the empty text, one line gives that line, and the text starts with the first line; `JoinAppend` fixes the rest |
| `Text.JoinAppend` | tvault.py:155 | joining one more line appends `\n` and that line |
| `Text.SplitJoin` | tvault.py:178 | splitting lines that were joined with `\n` gives them back, when no line holds a boundary and the last line is not empty |
| `Text.Partition` | tvault.py:182 | `found` holds exactly when the separator occurs, and then the string is head + separator + tail with no separator in the head; otherwise the head is the whole string and the tail is empty |
| `Text.PartitionAt` | tvault.py:182 | the split at the first separator is unique |
| `OrderedDict.Set` | tvault.py:91 | after `services[name] = secret`, the name maps to the secret |
| `OrderedDict.SetKeepsOthers` | tvault.py:91 | setting one key leaves every other key's value unchanged |
| `OrderedDict.SetOrder` | tvault.py:185 | an existing key keeps its position and a new key is appended, as in Python dict insertion order |
| `OrderedDict.SetAbsent` | tvault.py:185 | setting a key the dict lacks appends its entry after all the others, which stay as they were |
| `OrderedDict.SetKeepsUnique` | tvault.py:185 | setting a key keeps the names unique |
| `OrderedDict.Remove` | tvault.py:101 | after `del services[name]` the key is absent, every other key keeps its value, and exactly the entries with other names remain |
| `OrderedDict.RemoveAbsent` | tvault.py:101 | removing a key that is not there leaves the dict as it was |
| `OrderedDict.RemoveKeepsOrder` | tvault.py:101 | in a dict with unique keys, removing a present key cuts its one entry out where it stands and keeps the others in their order |
| `OrderedDict.RemoveKeepsUnique` | tvault.py:101 | removing a key keeps the keys unique |
| `OrderedDict.Lookup` | tvault.py:114-118 | a lookup finds a value exactly when the name is a key, and the value is the one stored under it |
| `OrderedDict.Names` | tvault.py:80-82 | the listed names are the dict's keys in dict order |
| `Codec.ParseLine` | tvault.py:179-185 | a line is skipped exactly when it is blank or starts with `;` after stripping; a record is the stripped line split at its first `:`, with a name free of `:` and a non-empty secret |
| `Codec.CorruptLineIff` | tvault.py:182-184 | a line that is not skipped is corrupt exactly when it has no `:` or its only `:` is its last character |
| `Codec.ParseLines` | tvault.py:178-185 | the load loop over the remaining lines fails only with the corrupted-line error |
| `Codec.Parse` | tvault.py:178-185 | loading a text fails only with the corrupted-line error, and the empty text loads as the empty dict |
| `Codec.ParseLineRecord` | tvault.py:182-185 | any stripped `name:secret` with no `:` in the name, a non-empty secret and no leading `;` is read as that record |
| `Codec.ParseRecords` | tvault.py:178-187 | the imperative load loop returns the same result as the specification `Parse` |
| `Codec.Serialize` | tvault.py:155 | the text is empty exactly for the empty dict, and otherwise starts with the first entry's `name:secret` |
| `Codec.FormatRecord` | tvault.py:155 | an entry's line is its name, then `:`, then its secret, and nothing else |
| `Codec.RecordLines` | tvault.py:155 | the generator yields one line per entry, the `i`-th being the `i`-th entry's `name:secret` line, in dict order |
| `Codec.SerializeAppend` | tvault.py:155 | a single entry serialises to its `name:secret` line alone, and each further entry adds `\n` and its line: records joined by `\n`, nothing after the last |
| `Codec.BrokenNameCorrupt` | tvault.py:178-184 | a record line whose name holds a line boundary (not at its front) and no `:` or leading `;` splits into a first line that reads as corrupt |
| `Codec.FirstRunBootstrap` | tvault.py:166-168 | the empty dict serialises to the empty text, which loads as the empty dict |
| `Codec.SerializeLines` | tvault.py:155 | the serialised text splits into exactly one `name:secret` line per entry, in dict order, with no extra or trailing empty line |
| `Codec.FormatParses` | tvault.py:178-185 | the line written for a storable entry is read back as that entry |
| `Codec.RoundTrip` | tvault.py:151-187 | loading the serialisation of a dict with unique, storable entries gives the same dict, order included |
| `Codec.ParseStorable` | tvault.py:178-185 | every successfully loaded dict has unique names and storable entries |
| `Codec.ReloadAfterRewrite` | tvault.py:105-108 | re-serialising a loaded dict and loading it again gives the same dict |
| `Codec.RewriteIsCanonical` | tvault.py:105-108 | the text written back for a loaded dict has one line per service, each without surrounding whitespace and read back as that service's entry, under distinct names |
| `Codec.FailsIffCorruptLine` | tvault.py:183-184 | the load loop fails, with the corrupted-line error, exactly when some remaining line reads as corrupt, whatever records were read before |
| `Codec.LastLineWins` | tvault.py:185 | after a load each name holds the secret of its last record line |
| `Codec.SkippedLineIrrelevant` | tvault.py:180-181 | inserting a blank or `;` line anywhere does not change the load result |
| `Codec.SecretMayHoldColon` | tvault.py:182 | the split is at the first `:` only, so the secret may contain `:` |
| `Codec.EmptyNameAccepted` | tvault.py:182-185 | a line with an empty name before `:` is accepted |
| `Sanitizer.SanityCheck` | tvault.py:190-200 | the outputs are the stripped inputs, the name is allowed and the secret is not empty; the empty-value error comes exactly for an empty trimmed value and the colon error exactly for a non-empty name holding `:` |
| `Sanitizer.SanityAcceptsIff` | tvault.py:193-198 | a pair is accepted exactly when the trimmed name is allowed and the trimmed secret is not empty |
| `Sanitizer.SanityIdempotent` | tvault.py:190-200 | sanitising an accepted pair's output returns the same pair |
| `Sanitizer.SecretUnconstrained` | tvault.py:192-198 | any two non-blank secrets are treated alike |
| `Sanitizer.SanitizedStorable` | tvault.py:190-200 | an accepted pair whose trimmed values hold no line boundary is a storable record |
| `Sanitizer.AcceptedAsGiven` | tvault.py:190-200 | a pair with no surrounding whitespace, an allowed name and a non-empty secret is returned unchanged |
| `Sanitizer.PunctuationAccepted` | tvault.py:195-198 | names with punctuation and secrets outside base32 are accepted after trimming |
| `Vault.Load` | tvault.py:163-187 | the write error comes exactly when a missing vault cannot be created, the decryption error exactly when gpg cannot decrypt an existing or created vault, and no other error but a corrupt line |
| `Vault.FirstRunLoadsEmpty` | tvault.py:166-168 | a missing vault loads as the empty dict once the empty write and the decryption succeed |
| `Vault.LoadedStorable` | tvault.py:163-187 | every dict `decrypt` returns has unique names and storable entries |
| `Vault.AddedServiceReadsBack` | tvault.py:87-92 | when neither sanitised value holds a line boundary, the text saved by an add loads back as the dict with the sanitised key set to the sanitised secret, and every other key unchanged |
| `Vault.LineBreakInNameCorruptsVault` | tvault.py:87-92 | for any dict of storable entries, adding a pair that passes the sanitiser with a trimmed name still holding a line boundary saves a text whose load fails |
| `Vault.LineBreakNameSanitized` | tvault.py:190-200 | the name `a\nb`, with its line break inside, passes the sanitiser unchanged |
| `Vault.LineBreakSecretSanitized` | tvault.py:190-200 | the secret `X\nevil:Y`, with its line break inside, passes the sanitiser unchanged |
| `Vault.LineBreakInSecretAddsRecord` | tvault.py:87-92 | adding a sanitised secret `k1\nn2:k2` under a new name saves a vault that loads with that name mapped to `k1` and an extra service `n2` mapped to `k2`, after the old entries |
| `Vault.SecretSplitsInTwo` | tvault.py:151-187 | saving an entry whose secret is a first secret, `\n` and a second record line loads back as two entries, the second under its own name |
| `Vault.DeletedServiceGone` | tvault.py:95-102 | after a delete, the saved text loads back as the dict without the key |
| `Vault.VaultFile.Encrypt` | tvault.py:151-160 | a successful write replaces the whole file with the serialised dict under the new passphrase; a failed write is an error and changes nothing |
| `Vault.VaultFile.Decrypt` | tvault.py:163-187 | returns `Load` of the old file state; the file changes only by the first-run empty write |
| `Vault.VaultFile.ListServices` | tvault.py:76-84 | returns the loaded names in dict order, or the load error |
| `Vault.VaultFile.AddService` | tvault.py:87-92 | a rejected pair changes nothing; otherwise a load error leaves only the bootstrap write, and a good load saves the dict with exactly that key set |
| `Vault.VaultFile.DeleteService` | tvault.py:95-102 | an absent name fails with not-found and nothing but the bootstrap write; a present one saves the dict without that key |
| `Vault.VaultFile.ChangePassword` | tvault.py:105-108 | the loaded dict is saved unchanged under the newly typed passphrase |
| `Vault.VaultFile.GenerateTotp` | tvault.py:111-123 | an absent name fails with not-found, oathtool's failure is an error, and otherwise the code is oathtool's output stripped |
| `Environment.GetToolPaths` | tvault.py:129-138 | the keys are exactly the requested tools that were found, each mapped to the path `which` gave |
| `Environment.JoinPath` | tvault.py:143-148 | the result is the first path, then the second, with one `/` between them exactly when the first is not empty and does not end in `/` |
| `Environment.GetVaultPath` | tvault.py:141-148 | the path is `~/.config/tvault` when `~/.config` is a directory and `~/.tvault` otherwise |
| `Dispatch.Invoke` | tvault.py:229-239 | the banner is shown exactly for fewer than one or more than three arguments; otherwise `run` gets the arguments, and `-add` always has both of its values |
| `Dispatch.Run` | tvault.py:48-55 | a command line is refused with the tools-missing error exactly when gpg or oathtool is missing; otherwise it selects its command, with the clipboard warning exactly when neither xclip nor xsel was found |
| `Dispatch.Select` | tvault.py:61-73 | `-list`/1, `-add`/3, `-del`/2 and `-chpass`/1 select their commands and only those shapes do; any other single argument is a service name to generate for; every other shape shows usage |
| `Dispatch.LoneOptionIsServiceName` | tvault.py:70-71 | a lone `-add` or `-del` is taken as a service name |
| `Dispatch.Execute` | tvault.py:44-73 | a missing tool is refused before the vault is touched, usage leaves the vault alone, listing and code generation leave the file as `decrypt` does (presence, contents and passphrase change only by the first-run empty write), and a successful delete removed a name that was present |

## Left out

- Encryption and decryption are not modelled. gpg's passphrase prompt and its agent are not modelled either. Each gpg run is reduced to its exit status, and each write also to the passphrase typed at its prompt.
- A failed gpg write is modelled as leaving the file untouched. Whether gpg truncates the target file on failure is not modelled.
- oathtool's TOTP computation is not modelled. It is a function argument.
- `clipboardinsert` (tvault.py:203-218) is only clipboard I/O and is not modelled. Its lookup of `tools['xclip']` can raise KeyError; that is not modelled either.
- The first-run write and the final write of one command each prompt for a passphrase. The model takes both as given values, which may differ; gpg's prompting and confirmation are not modelled.
- Printing, the message texts, `sys.exit` in `error`, the usage text and the help banner's content are not modelled. Each `error()` call becomes an `Err` value naming its check.
- Text encoding and decoding with `sys.stdin.encoding` and `sys.stdout.encoding` is not modelled. Text is Dafny `string`.
- The vault path string is computed by `GetVaultPath`, but `Execute` takes the `VaultFile` at that path as a parameter. The path itself only appears in error messages.
- Dispatch.Execute: its contract states the tool refusal, usage, the file state after listing or code generation, and the delete fact. The full per-command results are stated by the `VaultFile` methods it calls.
- Concurrent invocations on one vault file are not modelled.
- INSTALL.py is not part of this model. It is an interactive installer made of filesystem operations.
- CONFIG.py is not part of this model. It holds constants only.
