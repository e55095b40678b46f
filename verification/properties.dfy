/** Properties of the cipher engine that relate several calls: the lookup
    round trip, what the normaliser keeps, and the encrypt/decrypt round trip
    against an independent textbook definition of the cipher. */
module VigenereProperties {
  import opened Results
  import opened JavaChars
  import opened Vigenere

  // ---------------------------------------------------------------- lookup

  /** Decrypting with the key letter undoes encrypting with it: the
      "shift forward / shift backward" pair of the table. */
  lemma LookupRoundTrip(k: AsciiChar, m: AsciiChar)
    requires IsUpperCase(k) && IsUpperCase(m)
    ensures TableLookup(k, m, true).Ok?
    ensures TableLookup(TableLookup(k, m, true).value, k, false) == Ok(m)
  {
    var c := TableLookup(k, m, true).value;
    var d := TableLookup(c, k, false).value;
    assert Index(d) == Index(m);
  }

  /** And encrypting undoes decrypting. */
  lemma LookupRoundTripReverse(k: AsciiChar, c: AsciiChar)
    requires IsUpperCase(k) && IsUpperCase(c)
    ensures TableLookup(c, k, false).Ok?
    ensures TableLookup(k, TableLookup(c, k, false).value, true) == Ok(c)
  {
    var m := TableLookup(c, k, false).value;
    var e := TableLookup(k, m, true).value;
    assert Index(e) == Index(c);
  }

  // ------------------------------------------------------------ normaliser

  /** `a` can be obtained from `b` by deleting characters. */
  predicate IsSubsequence(a: Text, b: Text)
    decreases |b|
  {
    if |a| == 0 then true
    else if |b| == 0 then false
    else if a[0] == b[0] then IsSubsequence(a[1..], b[1..])
    else IsSubsequence(a, b[1..])
  }

  /** Every character of `s` upper-cased, none dropped. */
  function UpperCased(s: Text): (u: Text)
    ensures |u| == |s|
  {
    seq(|s|, i requires 0 <= i < |s| => ToUpperCase(s[i]))
  }

  /** The number of letters in `s`, counted from the front. */
  function CountLetters(s: Text): (n: nat)
    ensures n <= |s|
    decreases |s|
  {
    if |s| == 0 then 0
    else (if IsLetter(s[0]) then 1 else 0) + CountLetters(s[1..])
  }

  /** Normalising a concatenation normalises each part. */
  lemma {:induction false} PrepareConcat(a: Text, b: Text)
    ensures Prepare(a + b) == Prepare(a) + Prepare(b)
    decreases |b|
  {
    if |b| == 0 {
      assert a + b == a;
    } else {
      var b' := b[..|b| - 1];
      assert (a + b)[..|a + b| - 1] == a + b';
      assert b[..|b| - 1] == b';
      PrepareConcat(a, b');
    }
  }

  /** A string of letters `A`-`Z` is left unchanged by the normaliser. */
  lemma {:induction false} PrepareFixesUpperText(s: Text)
    requires IsUpperText(s)
    ensures Prepare(s) == s
    decreases |s|
  {
    if |s| > 0 {
      var s' := s[..|s| - 1];
      assert IsUpperText(s');
      PrepareFixesUpperText(s');
      assert s' + [s[|s| - 1]] == s;
    }
  }

  /** Normalising twice is normalising once. */
  lemma PrepareIdempotent(s: Text)
    ensures Prepare(Prepare(s)) == Prepare(s)
  {
    PrepareFixesUpperText(Prepare(s));
  }

  lemma {:induction false} SubsequenceAppend(a: Text, b: Text, x: AsciiChar, keep: bool)
    requires IsSubsequence(a, b)
    ensures IsSubsequence(a + (if keep then [x] else []), b + [x])
    decreases |b|
  {
    if |a| == 0 {
      if keep {
        assert a + [x] == [x];
        SubsequenceOfSingleton(x, b);
      }
    } else {
      assert |b| > 0;
      assert (a + (if keep then [x] else []))[0] == a[0];
      assert (b + [x])[1..] == b[1..] + [x];
      if a[0] == b[0] {
        assert (a + (if keep then [x] else []))[1..] == a[1..] + (if keep then [x] else []);
        SubsequenceAppend(a[1..], b[1..], x, keep);
      } else {
        SubsequenceAppend(a, b[1..], x, keep);
      }
    }
  }

  lemma {:induction false} SubsequenceOfSingleton(x: AsciiChar, b: Text)
    ensures IsSubsequence([x], b + [x])
    decreases |b|
  {
    if |b| > 0 {
      assert (b + [x])[1..] == b[1..] + [x];
      if x == b[0] {
        assert [x][1..] == [];
      } else {
        SubsequenceOfSingleton(x, b[1..]);
      }
    }
  }

  /** The normaliser keeps its characters in input order: its output is
      obtained from the upper-cased input by deleting characters. */
  lemma {:induction false} PrepareIsSubsequence(s: Text)
    ensures IsSubsequence(Prepare(s), UpperCased(s))
    decreases |s|
  {
    if |s| > 0 {
      var s' := s[..|s| - 1];
      var c := ToUpperCase(s[|s| - 1]);
      PrepareIsSubsequence(s');
      assert UpperCased(s) == UpperCased(s') + [c];
      SubsequenceAppend(Prepare(s'), UpperCased(s'), c, IsLetter(c));
    }
  }

  /** The normaliser drops no letter: it keeps exactly as many characters
      as the input has letters. With `PrepareIsSubsequence` and the
      normaliser's own contract this pins its output down completely. */
  lemma {:induction false} PrepareKeepsEveryLetter(s: Text)
    ensures |Prepare(s)| == CountLetters(s)
    decreases |s|
  {
    if |s| > 0 {
      var c := ToUpperCase(s[0]);
      assert s == [s[0]] + s[1..];
      PrepareConcat([s[0]], s[1..]);
      assert [s[0]][..0] == [];
      PrepareKeepsEveryLetter(s[1..]);
    }
  }

  // --------------------------------------------------- encrypt and decrypt

  /** The textbook Vigenère cipher on letters `A`-`Z`, by alphabet position:
      letter `i` is shifted forward (or backward) by key letter `i mod |key|`. */
  function Shifted(msg: Text, key: Text, forward: bool): (out: Text)
    requires IsUpperText(msg) && IsUpperText(key) && |key| > 0
    ensures |out| == |msg|
  {
    seq(|msg|, i requires 0 <= i < |msg| =>
      var shift := Index(key[i % |key|]);
      Letter((if forward then Index(msg[i]) + shift else Index(msg[i]) - shift) % 26))
  }

  /** Output letter `j` of the loop started at iteration `i` is the lookup
      of message letter `i + j` with key letter `(i + j) mod |key|`. */
  lemma {:induction false} StreamCell(msg: Text, key: Text, encrypt: bool, i: nat, j: nat)
    requires i <= |msg|
    requires Stream(msg, key, encrypt, i).Ok? && j < |Stream(msg, key, encrypt, i).value|
    ensures |key| > 0
    ensures Step(encrypt, msg[i + j], key[(i + j) % |key|]) == Ok(Stream(msg, key, encrypt, i).value[j])
    decreases j
  {
    var r := Stream(msg, key, encrypt, i);
    var rest := Stream(msg, key, encrypt, i + 1);
    assert r.value == [Step(encrypt, msg[i], KeyLetter(key, i)).value] + rest.value;
    if j > 0 {
      StreamCell(msg, key, encrypt, i + 1, j - 1);
      assert i + 1 + (j - 1) == i + j;
    }
  }

  /** Every output letter of the loop, as in `StreamCell`. */
  lemma StreamCells(msg: Text, key: Text, encrypt: bool, i: nat)
    requires i <= |msg|
    ensures var r := Stream(msg, key, encrypt, i);
      r.Ok? ==> forall j :: 0 <= j < |r.value| ==>
        Step(encrypt, msg[i + j], key[(i + j) % |key|]) == Ok(r.value[j])
  {
    var r := Stream(msg, key, encrypt, i);
    if r.Ok? {
      forall j | 0 <= j < |r.value|
        ensures Step(encrypt, msg[i + j], key[(i + j) % |key|]) == Ok(r.value[j])
      {
        StreamCell(msg, key, encrypt, i, j);
      }
    }
  }

  /** Encryption output letter `i` is the encrypting lookup with row
      `K[i mod |K|]` and column `M[i]`, for the normalised message `M` and
      key `K`. */
  lemma EncryptCells(inputMessage: Text, key: Text)
    ensures var r := Encrypt(inputMessage, key);
      var m, k := Prepare(inputMessage), Prepare(key);
      r.Ok? ==> forall i :: 0 <= i < |r.value| ==>
        TableLookup(k[i % |k|], m[i], true) == Ok(r.value[i])
  {
    StreamCells(Prepare(inputMessage), Prepare(key), true, 0);
  }

  /** Decryption output letter `i` is the decrypting lookup with row `M[i]`
      and column `K[i mod |K|]`. */
  lemma DecryptCells(inputMessage: Text, key: Text)
    ensures var r := Decrypt(inputMessage, key);
      var m, k := Prepare(inputMessage), Prepare(key);
      r.Ok? ==> forall i :: 0 <= i < |r.value| ==>
        TableLookup(m[i], k[i % |k|], false) == Ok(r.value[i])
  {
    StreamCells(Prepare(inputMessage), Prepare(key), false, 0);
  }

  /** One loop step on letters is a shift of the message letter by the key
      letter's position: forward when encrypting, backward when decrypting,
      whichever of the two is passed as the table row. */
  lemma StepIsShift(encrypt: bool, m: AsciiChar, k: AsciiChar)
    requires IsUpperCase(m) && IsUpperCase(k)
    ensures Step(encrypt, m, k)
      == Ok(Letter((if encrypt then Index(m) + Index(k) else Index(m) - Index(k)) % 26))
  {
    var r := Step(encrypt, m, k);
    var n := (if encrypt then Index(m) + Index(k) else Index(m) - Index(k)) % 26;
    assert Index(r.value) == Index(Letter(n));
  }

  /** The walk over already-normalised texts is the textbook cipher. */
  lemma StreamIsShifted(msg: Text, key: Text, encrypt: bool)
    requires IsUpperText(msg) && IsUpperText(key) && |key| > 0
    ensures Stream(msg, key, encrypt, 0) == Ok(Shifted(msg, key, encrypt))
  {
    var r := Stream(msg, key, encrypt, 0);
    var expected := Shifted(msg, key, encrypt);
    forall i | 0 <= i < |msg|
      ensures r.value[i] == expected[i]
    {
      StreamCell(msg, key, encrypt, 0, i);
      StepIsShift(encrypt, msg[i], key[i % |key|]);
    }
    assert r.value == expected;
  }

  /** Encryption is the textbook cipher applied to the normalised message
      and key. */
  lemma EncryptIsVigenere(inputMessage: Text, key: Text)
    requires |Prepare(key)| > 0
    ensures Encrypt(inputMessage, key) == Ok(Shifted(Prepare(inputMessage), Prepare(key), true))
  {
    StreamIsShifted(Prepare(inputMessage), Prepare(key), true);
  }

  /** Decryption is the textbook inverse cipher applied to the normalised
      message and key. */
  lemma DecryptIsVigenere(inputMessage: Text, key: Text)
    requires |Prepare(key)| > 0
    ensures Decrypt(inputMessage, key) == Ok(Shifted(Prepare(inputMessage), Prepare(key), false))
  {
    StreamIsShifted(Prepare(inputMessage), Prepare(key), false);
  }

  /** Shifting a residue modulo 26 one way and then the other returns it. */
  lemma ShiftCancels(a: int, shift: int, forward: bool)
    requires 0 <= a < 26 && 0 <= shift < 26
    ensures var c := (if forward then a + shift else a - shift) % 26;
      (if forward then c - shift else c + shift) % 26 == a
  {
    if forward {
      if a + shift < 26 {
        assert (a + shift) % 26 == a + shift;
        assert a % 26 == a;
      } else {
        assert (a + shift) % 26 == a + shift - 26;
        assert (a - 26) % 26 == a;
      }
    } else {
      if a - shift >= 0 {
        assert (a - shift) % 26 == a - shift;
        assert a % 26 == a;
      } else {
        assert (a - shift) % 26 == a - shift + 26;
        assert (a + 26) % 26 == a;
      }
    }
  }

  /** On letters, shifting back by the key undoes shifting forward by it,
      and the other way round. */
  lemma ShiftedRoundTrip(msg: Text, key: Text, forward: bool)
    requires IsUpperText(msg) && IsUpperText(key) && |key| > 0
    ensures IsUpperText(Shifted(msg, key, forward))
    ensures Shifted(Shifted(msg, key, forward), key, !forward) == msg
  {
    var c := Shifted(msg, key, forward);
    assert IsUpperText(c);
    var d := Shifted(c, key, !forward);
    forall i | 0 <= i < |msg|
      ensures d[i] == msg[i]
    {
      var shift := Index(key[i % |key|]);
      ShiftCancels(Index(msg[i]), shift, forward);
      assert Index(d[i]) == Index(msg[i]);
    }
  }

  /** Decrypting a ciphertext with the key it was made with gives back the
      normalised message. */
  lemma RoundTrip(inputMessage: Text, key: Text)
    requires |Prepare(key)| > 0
    ensures Encrypt(inputMessage, key).Ok?
    ensures Decrypt(Encrypt(inputMessage, key).value, key) == Ok(Prepare(inputMessage))
  {
    var m, k := Prepare(inputMessage), Prepare(key);
    EncryptIsVigenere(inputMessage, key);
    var c := Shifted(m, k, true);
    ShiftedRoundTrip(m, k, true);
    PrepareFixesUpperText(c);
    DecryptIsVigenere(c, key);
  }

  /** The round trip of the loop itself, on normalised texts: walking a
      letter-only message forward and then backward with the same non-empty
      key gives the message back. */
  lemma StreamRoundTrip(msg: Text, key: Text)
    requires IsUpperText(msg) && IsUpperText(key) && |key| > 0
    ensures Stream(msg, key, true, 0).Ok?
    ensures Stream(Stream(msg, key, true, 0).value, key, false, 0) == Ok(msg)
  {
    StreamIsShifted(msg, key, true);
    ShiftedRoundTrip(msg, key, true);
    StreamIsShifted(Shifted(msg, key, true), key, false);
  }

  /** Encrypting a decrypted text with the same key gives back the
      normalised text. */
  lemma RoundTripReverse(inputMessage: Text, key: Text)
    requires |Prepare(key)| > 0
    ensures Decrypt(inputMessage, key).Ok?
    ensures Encrypt(Decrypt(inputMessage, key).value, key) == Ok(Prepare(inputMessage))
  {
    var c, k := Prepare(inputMessage), Prepare(key);
    DecryptIsVigenere(inputMessage, key);
    var m := Shifted(c, k, false);
    ShiftedRoundTrip(c, k, false);
    PrepareFixesUpperText(m);
    EncryptIsVigenere(m, key);
  }

  /** With an empty normalised message the loops never run: the result is
      empty whatever the key, even one with no letters at all. */
  lemma EmptyMessage(inputMessage: Text, key: Text)
    requires Prepare(inputMessage) == []
    ensures Encrypt(inputMessage, key) == Ok([])
    ensures Decrypt(inputMessage, key) == Ok([])
  {
  }

  lemma ShiftByAIsIdentity(msg: Text, key: Text)
    requires IsUpperText(msg) && IsUpperText(key) && |key| > 0
    requires forall i :: 0 <= i < |key| ==> key[i] == 'A'
    ensures Shifted(msg, key, true) == msg
  {
    var r := Shifted(msg, key, true);
    forall i | 0 <= i < |msg|
      ensures r[i] == msg[i]
    {
      assert key[i % |key|] == 'A';
      assert Index(r[i]) == Index(msg[i]);
    }
  }

  /** A key made only of `A`s shifts nothing: encryption returns the
      normalised message. */
  lemma AllAKeyIsIdentity(inputMessage: Text, key: Text)
    requires |Prepare(key)| > 0
    requires forall i :: 0 <= i < |Prepare(key)| ==> Prepare(key)[i] == 'A'
    ensures Encrypt(inputMessage, key) == Ok(Prepare(inputMessage))
  {
    EncryptIsVigenere(inputMessage, key);
    ShiftByAIsIdentity(Prepare(inputMessage), Prepare(key));
  }
}
