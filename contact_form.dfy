/** The spam check of the contact form: a hidden "website" field that
    people leave empty and bots fill in. */
module ContactForm {
  import opened Js

  /** `String(formData.get("website") || "").trim() !== ""`: the submission
      is blocked exactly when the honeypot field holds a character that is
      not whitespace. */
  predicate SubmissionBlocked(website: Option<string>)
  {
    Trim(Or(website, "")) != ""
  }

  lemma BlockedIffNonBlank(website: Option<string>)
    ensures SubmissionBlocked(website)
      <==> website.Some? && exists k :: 0 <= k < |website.value| && !IsWhitespace(website.value[k])
  {
    if website.Some? && website.value != "" {
      assert Or(website, "") == website.value;
    }
  }
}
