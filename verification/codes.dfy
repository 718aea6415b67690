/** Short codes: the 62-symbol alphabet of `generateCode`, the format
    `^[A-Za-z0-9]{6,8}$` of `isValidCode`, and the bounded retry loop that
    looks for a generated code not yet in the table. */
module Codes {
  import opened Text
  import opened Schema
  import opened Wrappers

  /** Number of symbols in `ABCDEFGHIJKLMNOPQRSTUVWXYZabcdefghijklmnopqrstuvwxyz0123456789`. */
  const AlphabetSize := 62

  /** `generateCode`'s default `length`. */
  const DefaultLength := 6

  /** Bounds of the `{6,8}` quantifier in the code regex. */
  const MinCodeLength := 6
  const MaxRegexLength := 8

  /** `Math.floor(Math.random() * chars.length)`: one random position. */
  type AlphabetIndex = i: nat | i < AlphabetSize

  /** `chars.charAt(i)`: upper-case letters, then lower-case, then digits. */
  function SymbolAt(i: AlphabetIndex): char {
    if i < 26 then ('A' as int + i) as char
    else if i < 52 then ('a' as int + (i - 26)) as char
    else ('0' as int + (i - 52)) as char
  }

  /** The position of an alphanumeric character in the alphabet. */
  function IndexOf(c: char): (i: AlphabetIndex)
    requires IsAsciiAlnum(c)
    ensures SymbolAt(i) == c
  {
    if 'A' <= c <= 'Z' then c as int - 'A' as int
    else if 'a' <= c <= 'z' then 26 + (c as int - 'a' as int)
    else 52 + (c as int - '0' as int)
  }

  /** `generateCode(length)` with the random positions supplied as `draw`:
      one alphanumeric character per position, from which the positions can
      be read back. */
  function GenerateCode(draw: seq<AlphabetIndex>): (code: string)
    ensures |code| == |draw|
    ensures forall i :: 0 <= i < |code| ==> IsAsciiAlnum(code[i]) && IndexOf(code[i]) == draw[i]
  {
    seq(|draw|, i requires 0 <= i < |draw| => SymbolAt(draw[i]))
  }

  /** The positions that `GenerateCode` would have to draw to spell `code`. */
  function DrawOf(code: string): (draw: seq<AlphabetIndex>)
    requires forall i :: 0 <= i < |code| ==> IsAsciiAlnum(code[i])
    ensures |draw| == |code|
  {
    seq(|code|, i requires 0 <= i < |code| => IndexOf(code[i]))
  }

  /** Distinct draws give distinct codes, and every alphanumeric string of the
      drawn length can be generated: the generator is a bijection between
      draws and alphanumeric strings. */
  lemma GenerateCodeRoundTrip(draw: seq<AlphabetIndex>, code: string)
    requires forall i :: 0 <= i < |code| ==> IsAsciiAlnum(code[i])
    ensures DrawOf(GenerateCode(draw)) == draw
    ensures GenerateCode(DrawOf(code)) == code
  {
  }

  /** `isValidCode(code)`: `^[A-Za-z0-9]{6,8}$`. */
  predicate IsValidCode(code: string) {
    MinCodeLength <= |code| <= MaxRegexLength &&
    forall i :: 0 <= i < |code| ==> IsAsciiAlnum(code[i])
  }

  /** A valid code is stored exactly as it is: it fits `VARCHAR(8)` without
      cutting and holds no U+0000. */
  lemma ValidCodeIsStoredAsIs(code: string)
    requires IsValidCode(code)
    ensures NulFree(code) && FitsCodeColumn(code) && CodeColumnValue(code) == code
  {
  }

  /** Every code in the table passes `isValidCode`. */
  predicate AllCodesValid(store: Store) {
    forall k :: k in store ==> IsValidCode(k)
  }

  /** Every code `generateCode()` returns passes `isValidCode`. */
  lemma GeneratedCodeIsValid(draw: seq<AlphabetIndex>)
    requires |draw| == DefaultLength
    ensures IsValidCode(GenerateCode(draw))
    ensures |GenerateCode(draw)| <= MaxCodeLength
  {
  }

  /** `codeRegex.test(code)` run the way a backtracking matcher runs it:
      match `[A-Za-z0-9]` greedily up to 8 times from the start, then require
      the end of input. Giving back characters cannot help, since the end of
      input is only ever behind the longest run. */
  method TestCodeRegex(code: string) returns (matched: bool)
    ensures matched <==> IsValidCode(code)
  {
    var n := 0;
    while n < MaxRegexLength && n < |code| && IsAsciiAlnum(code[n])
      invariant n <= MaxRegexLength && n <= |code|
      invariant forall i :: 0 <= i < n ==> IsAsciiAlnum(code[i])
    {
      n := n + 1;
    }
    matched := MinCodeLength <= n && n == |code|;
  }

  /** The `do { … } while (attempts < 10)` loop of the create handler, from
      attempt `attempt` on: the index of the first candidate whose code is
      absent from the table, or None when every remaining candidate up to
      `maxAttempts` collides. */
  function FirstFreeAttempt(store: Store, candidates: seq<seq<AlphabetIndex>>,
                            attempt: nat, maxAttempts: nat): (r: Option<nat>)
    requires attempt < maxAttempts <= |candidates|
    ensures r.Some? ==> attempt <= r.value < maxAttempts
    ensures r.Some? ==> GenerateCode(candidates[r.value]) !in store
    ensures r.Some? ==> forall j :: attempt <= j < r.value ==> GenerateCode(candidates[j]) in store
    ensures r.None? ==> forall j :: attempt <= j < maxAttempts ==> GenerateCode(candidates[j]) in store
    decreases maxAttempts - attempt
  {
    if GenerateCode(candidates[attempt]) !in store then Some(attempt)
    else if attempt + 1 < maxAttempts then FirstFreeAttempt(store, candidates, attempt + 1, maxAttempts)
    else None
  }
}
