/** Case-insensitive comparison of configuration literals. */
module Text {

  /** ASCII lower-casing of one character; every other character is unchanged. */
  function ToLower(c: char): char
  {
    if 'A' <= c <= 'Z' then (c as int - 'A' as int + 'a' as int) as char else c
  }

  /** String equality ignoring the case of ASCII letters, as
      String.equalsIgnoreCase behaves on ASCII text. */
  predicate EqualsIgnoreCase(a: string, b: string)
  {
    |a| == |b| && forall i :: 0 <= i < |a| ==> ToLower(a[i]) == ToLower(b[i])
  }
}
