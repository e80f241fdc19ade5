/** The address the "copy email" button puts on the clipboard, from the
    `href` attribute of the email link and the link's text. */
module CopyEmail {
  import opened Js

  const MailtoScheme := "mailto:"

  /** `emailLink.getAttribute("href") || ""`, then the address after the
      `mailto:` scheme, or else the trimmed text of the link. */
  function CopiedEmail(href: Option<string>, linkText: string): (email: string)
    ensures StartsWith(Or(href, ""), MailtoScheme) ==> email == Or(href, "")[|MailtoScheme|..]
    ensures !StartsWith(Or(href, ""), MailtoScheme) ==> email == Trim(linkText)
  {
    var h := Or(href, "");
    if StartsWith(h, MailtoScheme) then
      ReplaceFirstAt(h, MailtoScheme, "", 0);
      ReplaceFirst(h, MailtoScheme, "")
    else
      Trim(linkText)
  }

  /** A `mailto:` link yields exactly the address written after the scheme,
      whatever the address contains, and the link text plays no part. */
  lemma MailtoRoundTrip(address: string, linkText: string)
    ensures CopiedEmail(Some(MailtoScheme + address), linkText) == address
  {
    assert (MailtoScheme + address)[..|MailtoScheme|] == MailtoScheme;
    assert (MailtoScheme + address)[|MailtoScheme|..] == address;
  }

  /** Without a `mailto:` link the copied text is the link text with its
      surrounding whitespace removed: no whitespace at either end, and
      trimming it again changes nothing. */
  lemma FallbackIsTrimmed(href: Option<string>, linkText: string)
    requires !StartsWith(Or(href, ""), MailtoScheme)
    ensures var email := CopiedEmail(href, linkText);
      email == Trim(email)
      && (email == [] <==> forall k :: 0 <= k < |linkText| ==> IsWhitespace(linkText[k]))
  {
    TrimIdempotent(linkText);
  }
}
