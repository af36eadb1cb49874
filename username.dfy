/** The display name recorded with each trade (the text of the name field, trimmed). */
module Username {
  import opened JavaText

  const Anonymous: string := "Anonymous"

  /** The name used when the field holds only blanks. */
  function ResolveName(text: string): (name: string)
    ensures name != []
    ensures !IsTrimmable(name[0]) && !IsTrimmable(name[|name| - 1])
    ensures Trim(text) != [] ==> name == Trim(text)
    ensures name == Anonymous <==> Trim(text) == [] || Trim(text) == Anonymous
  {
    var trimmed := Trim(text);
    if trimmed == [] then Anonymous else trimmed
  }

  /** A resolved name resolves to itself: feeding it back through the field changes nothing. */
  lemma ResolveNameIdempotent(text: string)
    ensures ResolveName(ResolveName(text)) == ResolveName(text)
  {
    TrimTrimmed(ResolveName(text));
  }
}
