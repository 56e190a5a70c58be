/**
 * Record pairing in parse_contacts (app.py). The three regular expressions and
 * their `findall` calls are not modelled: their results, the names, the
 * extensions and the e-mail addresses in document order, are the inputs.
 */
module Parse {
  import opened Text

  /** One `(name, ext, email)` tuple. */
  datatype Contact = Contact(name: string, ext: string, email: string)

  function Min3(a: nat, b: nat, c: nat): nat {
    if a <= b && a <= c then a else if b <= c then b else c
  }

  /** The i-th name, extension and address, each stripped. */
  function StrippedTriple(name: string, ext: string, email: string): Contact {
    Contact(Strip(name), Strip(ext), Strip(email))
  }

  /** `zip(names, exts, emails)`, which stops at the end of the shortest list,
      with each field stripped: the value parse_contacts returns. */
  function ParsedContacts(names: seq<string>, exts: seq<string>, emails: seq<string>): (r: seq<Contact>)
    ensures |r| == Min3(|names|, |exts|, |emails|)
    ensures forall i :: 0 <= i < |r| ==> r[i] == StrippedTriple(names[i], exts[i], emails[i])
  {
    if names == [] || exts == [] || emails == [] then []
    else
      [StrippedTriple(names[0], exts[0], emails[0])]
        + ParsedContacts(names[1..], exts[1..], emails[1..])
  }

  /** parse_contacts' loop: one appended record per position all three lists
      share. */
  method ParseContacts(names: seq<string>, exts: seq<string>, emails: seq<string>)
    returns (results: seq<Contact>)
    ensures results == ParsedContacts(names, exts, emails)
  {
    var n := Min3(|names|, |exts|, |emails|);
    results := [];
    var i := 0;
    while i < n
      invariant 0 <= i <= n
      invariant |results| == i
      invariant forall k :: 0 <= k < i ==> results[k] == StrippedTriple(names[k], exts[k], emails[k])
    {
      results := results + [StrippedTriple(names[i], exts[i], emails[i])];
      i := i + 1;
    }
    ghost var spec := ParsedContacts(names, exts, emails);
    assert forall k :: 0 <= k < |results| ==> results[k] == spec[k];
  }

  /** Every field of every parsed record is free of surrounding whitespace, and
      stripping it again changes nothing. */
  lemma ParsedFieldsStripped(names: seq<string>, exts: seq<string>, emails: seq<string>, i: int)
    requires 0 <= i < |ParsedContacts(names, exts, emails)|
    ensures var c := ParsedContacts(names, exts, emails)[i];
      && Stripped(c.name) && Stripped(c.ext) && Stripped(c.email)
      && Strip(c.name) == c.name && Strip(c.ext) == c.ext && Strip(c.email) == c.email
  {
    StripSpec(names[i]);
    StripSpec(exts[i]);
    StripSpec(emails[i]);
    StripIdempotent(names[i]);
    StripIdempotent(exts[i]);
    StripIdempotent(emails[i]);
  }

  /** Extra entries in a longer list are dropped: only the positions the
      shortest list has contribute. */
  lemma {:induction false} ParsedIgnoresSurplus(names: seq<string>, exts: seq<string>, emails: seq<string>)
    ensures var n := Min3(|names|, |exts|, |emails|);
      ParsedContacts(names, exts, emails) == ParsedContacts(names[..n], exts[..n], emails[..n])
  {
    var n := Min3(|names|, |exts|, |emails|);
    var a := ParsedContacts(names, exts, emails);
    var b := ParsedContacts(names[..n], exts[..n], emails[..n]);
    assert |a| == |b|;
    forall i | 0 <= i < |a| ensures a[i] == b[i] {
      assert names[..n][i] == names[i] && exts[..n][i] == exts[i] && emails[..n][i] == emails[i];
    }
  }
}
