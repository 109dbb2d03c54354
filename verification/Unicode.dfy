/** The character classes of Go's `unicode` package that the client relies on, and the replacement
    character. */
module Unicode {

  /** `unicode.IsSpace`: the White_Space property. */
  predicate IsSpace(c: char) {
    var n := c as int;
    || 0x09 <= n <= 0x0D || n == 0x20 || n == 0x85 || n == 0xA0 || n == 0x1680 || 0x2000 <= n <= 0x200A
    || n == 0x2028 || n == 0x2029 || n == 0x202F || n == 0x205F || n == 0x3000
  }

  /** `unicode.IsControl`: category Cc. */
  predicate IsControl(c: char) {
    var n := c as int;
    n < 0x20 || 0x7F <= n < 0xA0
  }

  /** `strings.TrimSpace` leaves nothing of it. */
  predicate IsBlank(s: string) {
    forall i :: 0 <= i < |s| ==> IsSpace(s[i])
  }

  /** The twenty-five characters of that property, one by one. */
  const WHITE_SPACE := "\t\n\U{0B}\U{0C}\r \U{85}\U{A0}\U{1680}\U{2000}\U{2001}\U{2002}\U{2003}\U{2004}\U{2005}" +
                       "\U{2006}\U{2007}\U{2008}\U{2009}\U{200A}\U{2028}\U{2029}\U{202F}\U{205F}\U{3000}"

  lemma SpaceIsListed(c: char)
    ensures IsSpace(c) <==> c in WHITE_SPACE
  {
  }

  /** A text of nothing but white space, and only such a text, counts as missing. */
  lemma BlankIsListed(s: string)
    ensures IsBlank(s) <==> forall c <- s :: c in WHITE_SPACE
  {
    forall c
      ensures IsSpace(c) <==> c in WHITE_SPACE
    {
      SpaceIsListed(c);
    }
  }

  /** Stands for bytes that are not text. */
  const REPLACEMENT := '\U{FFFD}'
}
