/** `sanitycheck` (tvault.py:190-200): trims and validates the service name
    and secret given to `-add`. */
module Sanitizer {
  import opened Text
  import opened Failures
  import opened OrderedDict
  import opened Codec

  /** A trimmed service name `sanitycheck` lets through. */
  predicate NameAllowed(name: string) {
    name != [] && ':' !in name && name[0] != ';' && name[0] != '-'
  }

  /** Both values are stripped; an empty one, a name holding ':' or a name
      starting with ';' or '-' is refused, in that order of checks. */
  function SanityCheck(service: string, secret: string): (r: Result<(string, string)>)
    ensures r.Ok? ==> r.value.0 == Strip(service) && r.value.1 == Strip(secret)
    ensures r.Ok? ==> NameAllowed(r.value.0) && r.value.1 != []
    ensures r == Err(EmptyField) <==> Strip(service) == [] || Strip(secret) == []
    ensures r == Err(ColonInName) <==> Strip(service) != [] && Strip(secret) != [] && ':' in Strip(service)
    ensures r.Err? ==> r.error in {EmptyField, ColonInName, BadNamePrefix}
  {
    var name, key := Strip(service), Strip(secret);
    if name == [] || key == [] then Err(EmptyField)
    else if ':' in name then Err(ColonInName)
    else if name[0] == ';' || name[0] == '-' then Err(BadNamePrefix)
    else Ok((name, key))
  }

  /** Accepted exactly when the trimmed name is allowed and the trimmed
      secret is not empty. */
  lemma SanityAcceptsIff(service: string, secret: string)
    ensures SanityCheck(service, secret).Ok? <==> NameAllowed(Strip(service)) && Strip(secret) != []
  {
  }

  /** Sanitising what was sanitised changes nothing. */
  lemma SanityIdempotent(service: string, secret: string)
    requires SanityCheck(service, secret).Ok?
    ensures SanityCheck(SanityCheck(service, secret).value.0, SanityCheck(service, secret).value.1)
            == SanityCheck(service, secret)
  {
    StripIdempotent(service);
    StripIdempotent(secret);
  }

  /** The secret's characters are not looked at: any two secrets that are
      not blank are treated alike. */
  lemma SecretUnconstrained(service: string, secret1: string, secret2: string)
    requires Strip(secret1) != [] && Strip(secret2) != []
    ensures SanityCheck(service, secret1).Ok? == SanityCheck(service, secret2).Ok?
    ensures SanityCheck(service, secret1).Err? ==> SanityCheck(service, secret1) == SanityCheck(service, secret2)
  {
  }

  /** A sanitised pair whose trimmed values hold no line boundary is a
      storable record, so it survives a save and a load. A boundary that
      trimming removes, as in a trailing newline, is harmless. */
  lemma SanitizedStorable(service: string, secret: string)
    requires SanityCheck(service, secret).Ok?
    requires NoBreaks(SanityCheck(service, secret).value.0) && NoBreaks(SanityCheck(service, secret).value.1)
    ensures Storable(Entry(SanityCheck(service, secret).value.0, SanityCheck(service, secret).value.1))
  {
  }

  /** A pair with no surrounding whitespace, an allowed name and a
      non-empty secret comes back as it is. */
  lemma AcceptedAsGiven(service: string, secret: string)
    requires NameAllowed(service) && !IsWhitespace(service[0]) && !IsWhitespace(service[|service| - 1])
    requires secret != [] && !IsWhitespace(secret[0]) && !IsWhitespace(secret[|secret| - 1])
    ensures SanityCheck(service, secret) == Ok((service, secret))
  {
  }

  /** Neither letters-and-digits-only names nor a base32 alphabet for the
      secret is enforced. */
  lemma PunctuationAccepted()
    ensures SanityCheck("a-b", "x!") == Ok(("a-b", "x!"))
  {
    var name, key := "a-b", "x!";
    assert name[0] == 'a' && name[|name| - 1] == 'b' && !IsWhitespace('a') && !IsWhitespace('b');
    assert key[0] == 'x' && key[|key| - 1] == '!' && !IsWhitespace('x') && !IsWhitespace('!');
    assert ':' !in name;
    AcceptedAsGiven(name, key);
  }
}
