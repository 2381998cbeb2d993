/** The candidate character sets the scans fall back to when the caller supplies none. */
module CharacterSets {

  const Uppercase: string := "ABCDEFGHIJKLMNOPQRSTUVWXYZ"
  const Lowercase: string := "abcdefghijklmnopqrstuvwxyz"
  const Digits: string := "0123456789"
  const Punctuation: string := "!@#$%^&*()_+-=[]{}|;:'\",.<>?/~`"

  /** The default of the canvas scan: letters and digits only. */
  const Alphanumerics: string := Uppercase + Lowercase + Digits

  /** The default of the CoreText and Imagick scans: letters, digits and 31 punctuation marks. */
  const DefaultCharacters: string := Alphanumerics + Punctuation

  /**
   The one-character strings of `s`, in order; an empty string gives none. This is how the
   PHP scan splits its set (`str_split`) and how the JavaScript scan iterates its text.
   */
  function Pieces(s: string): (pieces: seq<string>)
    ensures |pieces| == |s|
    ensures forall i :: 0 <= i < |s| ==> pieces[i] == [s[i]]
  {
    seq(|s|, i requires 0 <= i < |s| => [s[i]])
  }

  lemma DefaultSetsShape()
    ensures |DefaultCharacters| == 93 && |Alphanumerics| == 62
    ensures ' ' !in DefaultCharacters && ' ' !in Alphanumerics
    ensures forall c :: c in Alphanumerics ==> c in DefaultCharacters
  {
    NoSpaceInComponents();
  }

  lemma NoSpaceInComponents()
    ensures ' ' !in Uppercase && ' ' !in Lowercase && ' ' !in Digits && ' ' !in Punctuation
  {
    assert ' ' !in Uppercase;
    assert ' ' !in Lowercase;
    assert ' ' !in Digits;
    assert ' ' !in Punctuation;
  }
}
