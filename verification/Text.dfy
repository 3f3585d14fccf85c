/** Character classes and identifier formats shared by several contracts. */
module Text {

  predicate IsDigit(c: char) {
    '0' <= c <= '9'
  }

  predicate IsLowerHex(c: char) {
    IsDigit(c) || 'a' <= c <= 'f'
  }

  predicate IsLower(c: char) {
    'a' <= c <= 'z'
  }

  predicate IsAlphanumeric(c: char) {
    IsDigit(c) || IsLower(c) || 'A' <= c <= 'Z'
  }

  /** `[A-Za-z0-9._:-]` */
  predicate IsTokenChar(c: char) {
    IsAlphanumeric(c) || c == '.' || c == '_' || c == ':' || c == '-'
  }

  /** `^[A-Za-z0-9][A-Za-z0-9._:-]{low,high}$` */
  predicate IsToken(s: string, low: nat, high: nat) {
    && low + 1 <= |s| <= high + 1
    && IsAlphanumeric(s[0])
    && forall i :: 0 <= i < |s| ==> IsTokenChar(s[i])
  }

  predicate IsDash(i: int) {
    i == 8 || i == 13 || i == 18 || i == 23
  }

  /** Lower-case UUID text of any version. */
  predicate IsUuid(s: string) {
    |s| == 36 && forall i :: 0 <= i < 36 ==> if IsDash(i) then s[i] == '-' else IsLowerHex(s[i])
  }

  /** Lower-case RFC 4122 UUID text: version 1-8, variant 8, 9, a or b. */
  predicate IsRfc4122Uuid(s: string) {
    IsUuid(s) && '1' <= s[14] <= '8' && s[19] in "89ab"
  }

  /** A SHA-256 digest in lower-case hexadecimal. */
  predicate IsHex64(s: string) {
    |s| == 64 && forall i :: 0 <= i < 64 ==> IsLowerHex(s[i])
  }

  predicate At(s: string, i: nat, part: string) {
    i + |part| <= |s| && s[i..i + |part|] == part
  }

  predicate Contains(s: string, part: string) {
    exists i :: 0 <= i <= |s| && At(s, i, part)
  }
}
