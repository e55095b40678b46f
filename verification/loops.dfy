/** The engine as the source writes it: index loops that append to a
    string builder, each proved equal to the functional definition. */
module VigenereLoops {
  import opened Results
  import opened JavaChars
  import opened Vigenere
  import VigenereProperties

  /** The normaliser loop: upper-case each character, skip it unless it is
      then a letter, append it otherwise. */
  method PrepareString(input: Text) returns (output: Text)
    ensures output == Prepare(input)
  {
    output := [];
    for i := 0 to |input|
      invariant output == Prepare(input[..i])
    {
      assert input[..i + 1][..i] == input[..i];
      var c := ToUpperCase(input[i]);
      if !IsLetter(c) {
        continue;
      }
      output := output + [c];
    }
    assert input[..|input|] == input;
  }

  /** The encryption loop. Iteration `i` reads key letter `i % |key|` with
      Java's remainder, which faults on an empty key before any lookup. */
  method EncryptLoop(inputMessage: Text, key: Text) returns (r: Result<Text, Fault>)
    ensures r == Encrypt(inputMessage, key)
  {
    var msg := PrepareString(inputMessage);
    var k := PrepareString(key);
    var out: Text := [];
    for i := 0 to |msg|
      invariant |out| == i
      invariant i > 0 ==> |k| > 0
      invariant forall j :: 0 <= j < i ==> TableLookup(k[j % |k|], msg[j], true) == Ok(out[j])
    {
      if |k| == 0 {
        return Err(ArithmeticFault);
      }
      var c := TableLookup(k[Rem(i, |k|)], msg[i], true).value;
      out := out + [c];
    }
    var e := Encrypt(inputMessage, key);
    assert e.Ok?;
    VigenereProperties.EncryptCells(inputMessage, key);
    assert e.value == out;
    r := Ok(out);
  }

  /** The decryption loop: the message letter is the row and key letter
      `i % |key|` the column of a backward lookup. */
  method DecryptLoop(inputMessage: Text, key: Text) returns (r: Result<Text, Fault>)
    ensures r == Decrypt(inputMessage, key)
  {
    var msg := PrepareString(inputMessage);
    var k := PrepareString(key);
    var out: Text := [];
    for i := 0 to |msg|
      invariant |out| == i
      invariant i > 0 ==> |k| > 0
      invariant forall j :: 0 <= j < i ==> TableLookup(msg[j], k[j % |k|], false) == Ok(out[j])
    {
      if |k| == 0 {
        return Err(ArithmeticFault);
      }
      var c := TableLookup(msg[i], k[Rem(i, |k|)], false).value;
      out := out + [c];
    }
    var d := Decrypt(inputMessage, key);
    assert d.Ok?;
    VigenereProperties.DecryptCells(inputMessage, key);
    assert d.value == out;
    r := Ok(out);
  }
}
