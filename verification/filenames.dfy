/** The upload-name sanitizer: `re.sub(r'[^\w\-\.]', '_', name)`.

    What `\w` matches on a Python `str` (Unicode letters, digits and the underscore) is not
    modelled; it is a parameter `word`, and the facts below say which of its properties
    each one needs. `AsciiWord` is the ASCII reading of the class. */
module Filenames {
  import opened Text

  /** A character class standing for the regular-expression class `\w`. */
  type CharClass = char -> bool

  /** The ASCII part of `\w`: letters, digits and the underscore. */
  predicate AsciiWord(c: char) {
    ('a' <= c <= 'z') || ('A' <= c <= 'Z') || ('0' <= c <= '9') || c == '_'
  }

  /** The properties of Python's `\w` the model relies on: it holds of `_` and of neither
      path separator. */
  predicate IsWordClass(word: CharClass) {
    word('_') && !word('/') && !word('\\')
  }

  /** The characters the sanitizer keeps: `\w`, `-` and `.`. */
  predicate Allowed(word: CharClass, c: char) {
    word(c) || c == '-' || c == '.'
  }

  /** Every character outside `[\w\-.]` becomes `_`, everything else is kept. */
  function Sanitize(word: CharClass, name: string): (r: string)
    ensures |r| == |name|
    ensures forall i :: 0 <= i < |name| ==> r[i] == (if Allowed(word, name[i]) then name[i] else '_')
  {
    if name == [] then []
    else [if Allowed(word, name[0]) then name[0] else '_'] + Sanitize(word, name[1..])
  }

  /** A name is left unchanged exactly when each of its characters is allowed or is `_`. */
  lemma SanitizeFixpoint(word: CharClass, name: string)
    ensures Sanitize(word, name) == name <==>
      forall i :: 0 <= i < |name| ==> Allowed(word, name[i]) || name[i] == '_'
  {
    var r := Sanitize(word, name);
    if r == name {
      forall i | 0 <= i < |name|
        ensures Allowed(word, name[i]) || name[i] == '_'
      {
        assert r[i] == name[i];
      }
    }
  }

  /** Every character of a sanitized name is allowed or is the replacement `_`; with a class
      containing `_`, that is: every character is allowed. */
  lemma SanitizeOutput(word: CharClass, name: string)
    ensures forall i :: 0 <= i < |name| ==>
      Allowed(word, Sanitize(word, name)[i]) || Sanitize(word, name)[i] == '_'
    ensures word('_') ==> forall c :: c in Sanitize(word, name) ==> Allowed(word, c)
  {
  }

  /** Sanitizing twice is sanitizing once. */
  lemma SanitizeIdempotent(word: CharClass, name: string)
    ensures Sanitize(word, Sanitize(word, name)) == Sanitize(word, name)
  {
    SanitizeOutput(word, name);
    SanitizeFixpoint(word, Sanitize(word, name));
  }

  /** Under the ASCII reading of `\w`, a sanitized name uses only `[A-Za-z0-9_.-]`. */
  lemma SanitizeAscii(name: string)
    ensures forall c :: c in Sanitize(AsciiWord, name) ==>
      ('a' <= c <= 'z') || ('A' <= c <= 'Z') || ('0' <= c <= '9') || c == '_' || c == '-' || c == '.'
  {
    SanitizeOutput(AsciiWord, name);
  }

  /** No path separator survives sanitizing, so a sanitized name is a single path component. */
  lemma SanitizeNoSeparator(word: CharClass, name: string)
    requires IsWordClass(word)
    ensures NoneOf(Sanitize(word, name), {'/', '\\'})
  {
  }
}
