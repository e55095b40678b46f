/** Worked examples of the cipher on concrete strings. */
module VigenereVectors {
  import opened Results
  import opened JavaChars
  import opened Vigenere
  import opened VigenereProperties

  /** The normaliser extended by one character. */
  lemma PrepareAppend(s: Text, c: AsciiChar)
    ensures Prepare(s + [c]) == Prepare(s) + (if IsLetter(ToUpperCase(c)) then [ToUpperCase(c)] else [])
  {
    assert (s + [c])[..|s|] == s;
  }

  lemma PrepareHello()
    ensures Prepare("hello") == "HELLO"
  {
    PrepareAppend("", 'h');
    assert "" + ['h'] == "h";
    PrepareAppend("h", 'e');
    assert "h" + ['e'] == "he";
    PrepareAppend("he", 'l');
    assert "he" + ['l'] == "hel";
    PrepareAppend("hel", 'l');
    assert "hel" + ['l'] == "hell";
    PrepareAppend("hell", 'o');
    assert "hell" + ['o'] == "hello";
  }

  /** A key with no letters normalises to the empty string, so encrypting a
      non-empty message faults on `i % 0`. */
  lemma DigitKeyFaults()
    ensures Encrypt("hello", "123") == Err(ArithmeticFault)
  {
    PrepareAppend([], '1');
    PrepareAppend(['1'], '2');
    PrepareAppend(['1', '2'], '3');
    assert Prepare("123") == [];
    PrepareHello();
  }

  /** The textbook cipher on the classic example, forward. */
  lemma ShiftedAttackAtDawn()
    ensures Shifted("ATTACKATDAWN", "LEMON", true) == "LXFOPVEFRNHR"
  {
  }

  /** The same example, backward. */
  lemma UnshiftedAttackAtDawn()
    ensures Shifted("LXFOPVEFRNHR", "LEMON", false) == "ATTACKATDAWN"
  {
  }

  /** The classic example: ATTACKATDAWN under the key LEMON encrypts to
      LXFOPVEFRNHR, and that decrypts back. */
  lemma AttackAtDawn()
    ensures Encrypt("ATTACKATDAWN", "LEMON") == Ok("LXFOPVEFRNHR")
    ensures Decrypt("LXFOPVEFRNHR", "LEMON") == Ok("ATTACKATDAWN")
  {
    PrepareFixesUpperText("ATTACKATDAWN");
    PrepareFixesUpperText("LXFOPVEFRNHR");
    PrepareFixesUpperText("LEMON");
    EncryptIsVigenere("ATTACKATDAWN", "LEMON");
    DecryptIsVigenere("LXFOPVEFRNHR", "LEMON");
    ShiftedAttackAtDawn();
    UnshiftedAttackAtDawn();
  }

  /** Key letters `A` shift by nothing, whatever the key's length. */
  lemma AllAKeyExample()
    ensures Encrypt("hello", "aaa") == Ok("HELLO")
  {
    PrepareHello();
    PrepareAppend("", 'a');
    assert "" + ['a'] == "a";
    PrepareAppend("a", 'a');
    assert "a" + ['a'] == "aa";
    PrepareAppend("aa", 'a');
    assert "aa" + ['a'] == "aaa";
    assert Prepare("aaa") == "AAA";
    AllAKeyIsIdentity("hello", "aaa");
  }
}
