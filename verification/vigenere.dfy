/** The Vigenère cipher engine: table lookup, the string normaliser and the
    encrypt/decrypt walks over a normalised message with a repeating key. */
module Vigenere {
  import opened Results
  import opened JavaChars

  /** The two ways the engine can fail: the lookup's guard rejects a
      character that is not `A`-`Z` (an IllegalArgumentException), and
      cycling an empty key computes `i % 0` (an ArithmeticException). */
  datatype Fault = IllegalArgument | ArithmeticFault

  type Text = seq<AsciiChar>

  /** Every character is one of the 26 alphabet letters `A`-`Z`. */
  predicate IsUpperText(s: Text) {
    forall i :: 0 <= i < |s| ==> IsUpperCase(s[i])
  }

  /** Position of an alphabet letter, `row - 'A'` in the source. */
  function Index(c: AsciiChar): (n: nat)
    requires IsUpperCase(c)
    ensures n < 26
  {
    c as int - 'A' as int
  }

  /** The alphabet letter at a position, `(char) ('A' + n)` in the source. */
  function Letter(n: int): (c: AsciiChar)
    requires 0 <= n < 26
    ensures IsUpperCase(c) && Index(c) == n
  {
    ('A' as int + n) as char
  }

  /** The table index, computed with Java's truncating remainder. The `+ 26`
      keeps the decrypt operand positive, so the result is a true residue
      modulo 26 in both directions. */
  function CipherIndex(rowIndex: int, colIndex: int, encrypt: bool): (n: int)
    requires 0 <= rowIndex < 26 && 0 <= colIndex < 26
    ensures 0 <= n < 26
    ensures n == (if encrypt then rowIndex + colIndex else rowIndex - colIndex) % 26
  {
    if encrypt then Rem(rowIndex + colIndex, 26) else Rem(rowIndex - colIndex + 26, 26)
  }

  /** One cell of the Vigenère table. Encrypting shifts `row` forward by the
      position of `col`; decrypting shifts it backward. Anything other than
      two upper-case letters is rejected. */
  function TableLookup(row: AsciiChar, col: AsciiChar, encrypt: bool): (r: Result<AsciiChar, Fault>)
    ensures r.Ok? <==> IsUpperCase(row) && IsUpperCase(col)
    ensures r.Err? ==> r.error == IllegalArgument
    ensures r.Ok? ==> IsUpperCase(r.value)
    ensures r.Ok? ==>
      Index(r.value) == (if encrypt then Index(row) + Index(col) else Index(row) - Index(col)) % 26
  {
    if !IsLetter(row) || !IsLetter(col) || !IsUpperCase(row) || !IsUpperCase(col) then
      Err(IllegalArgument)
    else
      var rowIndex := row as int - 'A' as int;
      var colIndex := col as int - 'A' as int;
      Ok(Letter(CipherIndex(rowIndex, colIndex, encrypt)))
  }

  /** The normaliser: upper-case every character and keep it only if it is
      then a letter. Defined by the last character, as the source appends
      to its builder from left to right. */
  function Prepare(input: Text): (output: Text)
    ensures IsUpperText(output)
    ensures |output| <= |input|
    decreases |input|
  {
    if |input| == 0 then []
    else
      var c := ToUpperCase(input[|input| - 1]);
      Prepare(input[..|input| - 1]) + (if IsLetter(c) then [c] else [])
  }

  /** The lookup one loop iteration performs on message letter `m` and key
      letter `k`: encryption passes the key letter as the row, decryption
      passes the message letter as the row. */
  function Step(encrypt: bool, m: AsciiChar, k: AsciiChar): (r: Result<AsciiChar, Fault>)
    ensures r.Ok? <==> IsUpperCase(m) && IsUpperCase(k)
    ensures r.Err? ==> r.error == IllegalArgument
    ensures r.Ok? ==> IsUpperCase(r.value)
    ensures r.Ok? ==>
      Index(r.value) == (if encrypt then Index(m) + Index(k) else Index(m) - Index(k)) % 26
  {
    if encrypt then TableLookup(k, m, true) else TableLookup(m, k, false)
  }

  /** The key letter paired with message position `i`, read with Java's
      remainder as `key.charAt(i % key.length())`. As `i` is never negative
      it is the key letter at `i` modulo the key length. */
  function KeyLetter(key: Text, i: nat): (c: AsciiChar)
    requires |key| > 0
    ensures c == key[i % |key|]
  {
    key[Rem(i, |key|)]
  }

  /** The loop of the encrypt and decrypt operations from iteration `i` on:
      message letter `i` is paired with key letter `i % |key|`. The first
      fault met, in iteration order, is the result. What each output letter
      is, is stated by `VigenereProperties.StreamCells`. */
  function Stream(msg: Text, key: Text, encrypt: bool, i: nat): (r: Result<Text, Fault>)
    requires i <= |msg|
    ensures r.Ok? && i < |msg| ==> |key| > 0
    ensures r.Ok? ==> |r.value| == |msg| - i && IsUpperText(r.value)
    ensures r.Err? ==> (r.error == ArithmeticFault <==> |key| == 0)
    ensures IsUpperText(msg) && IsUpperText(key) ==> (r.Err? <==> |key| == 0 && i < |msg|)
    decreases |msg| - i
  {
    if i == |msg| then Ok([])
    else if |key| == 0 then Err(ArithmeticFault)
    else
      var c :- Step(encrypt, msg[i], KeyLetter(key, i));
      var rest :- Stream(msg, key, encrypt, i + 1);
      Ok([c] + rest)
  }

  /** Encryption: normalise message and key, then output letter `i` is the
      table cell with the key letter `i % |key|` as row and message letter
      `i` as column (`VigenereProperties.EncryptCells`). Only an empty
      normalised key with a non-empty normalised message fails. */
  function Encrypt(inputMessage: Text, key: Text): (r: Result<Text, Fault>)
    ensures r.Err? <==> |Prepare(key)| == 0 && |Prepare(inputMessage)| > 0
    ensures r.Err? ==> r.error == ArithmeticFault
    ensures r.Ok? ==> |r.value| == |Prepare(inputMessage)| && IsUpperText(r.value)
  {
    Stream(Prepare(inputMessage), Prepare(key), true, 0)
  }

  /** Decryption: as encryption, but the message letter is the row, the key
      letter `i % |key|` the column, and the table is read backwards
      (`VigenereProperties.DecryptCells`). */
  function Decrypt(inputMessage: Text, key: Text): (r: Result<Text, Fault>)
    ensures r.Err? <==> |Prepare(key)| == 0 && |Prepare(inputMessage)| > 0
    ensures r.Err? ==> r.error == ArithmeticFault
    ensures r.Ok? ==> |r.value| == |Prepare(inputMessage)| && IsUpperText(r.value)
  {
    Stream(Prepare(inputMessage), Prepare(key), false, 0)
  }
}
