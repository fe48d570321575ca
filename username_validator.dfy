/** The username validator of users/validators.py.
    Python's Unicode `str.lower()` and the regular-expression class `\w` are
    not modelled; they are the parameters `lower` and `isWordChar`. */
module UsernameValidator {
  import opened Common
  import opened Seqs

  /** The one name reserved for the `/users/me/` endpoint. */
  const ReservedName := "me"
  const ReservedMessage := "Недопустимое имя пользователя!"
  const SymbolsMessagePrefix := "Некорректные символы в username: "

  /** c belongs to the character class `[[\w.@+-]`; the literal '[' in it is
      part of the class as written. */
  predicate Allowed(c: char, isWordChar: char -> bool) {
    isWordChar(c) || c in "[.@+-"
  }

  /** `re.findall(r'[^[\w.@+-]', value)`: the offending characters, in order. */
  function InvalidSymbols(value: string, isWordChar: char -> bool): seq<char> {
    Filter(value, c => !Allowed(c, isWordChar))
  }

  /** The offending characters, each as a one-character string, joined by ", ". */
  function SymbolsMessage(symbols: seq<char>): string {
    SymbolsMessagePrefix + Join(seq(|symbols|, i requires 0 <= i < |symbols| => [symbols[i]]), ", ")
  }

  /** validate_username: the reserved name in any letter case is refused first,
      then any character outside the class; a valid name is returned as given. */
  function ValidateUsername(value: string, lower: string -> string, isWordChar: char -> bool): (r: Result<string>)
    ensures r.Ok? <==> lower(value) != ReservedName && forall c :: c in value ==> Allowed(c, isWordChar)
    ensures r.Ok? ==> r.value == value
    ensures lower(value) == ReservedName ==> r == Err(Invalid(ReservedMessage))
    ensures lower(value) != ReservedName && r.Err? ==>
      r.error == Invalid(SymbolsMessage(InvalidSymbols(value, isWordChar))) &&
      exists c :: c in value && !Allowed(c, isWordChar)
  {
    if lower(value) == ReservedName then Err(Invalid(ReservedMessage))
    else
      var invalid := InvalidSymbols(value, isWordChar);
      if |invalid| > 0 then
        assert invalid[0] in invalid;
        Err(Invalid(SymbolsMessage(invalid)))
      else Ok(value)
  }

  /** The message lists the offending characters in order of occurrence: the
      offending characters of a concatenation are those of each part, in turn. */
  lemma InvalidSymbolsInOrder(a: string, b: string, isWordChar: char -> bool)
    ensures InvalidSymbols(a + b, isWordChar) == InvalidSymbols(a, isWordChar) + InvalidSymbols(b, isWordChar)
  {
    FilterConcat(a, b, c => !Allowed(c, isWordChar));
  }

  /** Each offending character appears in the message as often as in the name. */
  lemma {:induction false} InvalidSymbolsCount(value: string, isWordChar: char -> bool, c: char)
    requires !Allowed(c, isWordChar)
    ensures multiset(InvalidSymbols(value, isWordChar))[c] == multiset(value)[c]
  {
    if value != [] {
      assert value == [value[0]] + value[1..];
      InvalidSymbolsInOrder([value[0]], value[1..], isWordChar);
      InvalidSymbolsCount(value[1..], isWordChar, c);
    }
  }
}
