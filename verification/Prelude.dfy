/** Types shared by every module: Go's (value, error) pairs, bytes, and the two
    string tests the repository leans on. */
module Prelude {

  datatype Option<+T> = None | Some(value: T)

  type byte = x: int | 0 <= x < 256

  type bytes = seq<byte>

  predicate OccursAt(s: string, sub: string, i: nat) {
    i + |sub| <= |s| && s[i..i + |sub|] == sub
  }

  // strings.Contains
  predicate Contains(s: string, sub: string) {
    exists i | 0 <= i <= |s| :: OccursAt(s, sub, i)
  }

  // strings.HasPrefix
  predicate HasPrefix(s: string, prefix: string) {
    prefix <= s
  }
}
