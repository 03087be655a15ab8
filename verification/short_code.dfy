/**
 * The short-code encoder of `ShortenUrl`: the counter value is written in
 * positional base 26 with the digits `A` (0) to `Z` (25), most significant
 * digit first. This is not bijective base 26: `A` is a real zero digit, and
 * the id 0 has the empty code.
 */
module ShortCode {
  import opened Text

  const Alphabet := "ABCDEFGHIJKLMNOPQRSTUVWXYZ"

  /** The alphabet holds the 26 capital letters in order. */
  lemma {:induction false} AlphabetAt(d: int)
    requires 0 <= d < |Alphabet|
    ensures Alphabet[d] as int == 'A' as int + d
  {
  }

  /** The value of one digit. */
  function Digit(c: char): (d: nat)
    requires IsUpperLetter(c)
    ensures d < |Alphabet| && Alphabet[d] == c
  {
    AlphabetAt(c as int - 'A' as int);
    c as int - 'A' as int
  }

  /** The code of an id: the least significant digit is the last letter. */
  function Code(id: int): (s: string)
    ensures IsUpperLetters(s)
    ensures |s| == 0 <==> id <= 0
    decreases id
  {
    if id <= 0 then ""
    else
      AlphabetAt(id % |Alphabet|);
      Code(id / |Alphabet|) + [Alphabet[id % |Alphabet|]]
  }

  /** Reading a code back as base-26 digits, most significant first. */
  function Decode(s: string): (n: nat)
    requires IsUpperLetters(s)
    ensures |s| > 0 && s[0] != 'A' ==> n > 0
  {
    if s == [] then 0
    else 26 * Decode(s[..|s| - 1]) + Digit(s[|s| - 1])
  }

  /** `s.Reverse()`: the characters of `s` in the opposite order. */
  function Reversed(s: string): (r: string)
    ensures |r| == |s|
    ensures forall i :: 0 <= i < |s| ==> r[i] == s[|s| - 1 - i]
  {
    if s == [] then [] else Reversed(s[1..]) + [s[0]]
  }

  lemma ReversedAppend(s: string, c: char)
    ensures Reversed(s + [c]) == [c] + Reversed(s)
  {
  }


  /**
   * The encoder loop of `ShortenUrl`: take `idx % 26` as a letter and divide
   * by 26 until the value reaches zero, then reverse what was collected.
   */
  method EncodeId(id: int) returns (code: string)
    ensures code == Code(id)
  {
    var idx := id;
    var s := "";
    while idx > 0
      invariant Code(id) == Code(idx) + Reversed(s)
      decreases idx
    {
      var letter := Alphabet[idx % |Alphabet|];
      ReversedAppend(s, letter);
      s := s + [letter];
      idx := idx / |Alphabet|;
    }
    code := Reversed(s);
  }

  /** Decoding a code gives back its id: the encoding loses nothing. */
  lemma {:induction false} DecodeCode(id: nat)
    ensures Decode(Code(id)) == id
  {
    if id > 0 {
      var q, r := id / 26, id % 26;
      var s := Code(id);
      assert s == Code(q) + [Alphabet[r]];
      assert s[..|s| - 1] == Code(q);
      AlphabetAt(r);
      assert Digit(s[|s| - 1]) == r;
      DecodeCode(q);
      assert id == 26 * q + r;
    }
  }

  /** Distinct ids never share a code. */
  lemma CodeInjective(a: nat, b: nat)
    requires Code(a) == Code(b)
    ensures a == b
  {
    DecodeCode(a);
    DecodeCode(b);
  }

  /** A positive id has a non-empty code that does not start with the zero digit `A`. */
  lemma {:induction false} CodeLeadingLetter(id: int)
    requires id > 0
    ensures |Code(id)| > 0 && Code(id)[0] != 'A'
  {
    if id >= 26 {
      CodeLeadingLetter(id / 26);
    } else {
      assert Code(id / 26) == "";
      AlphabetAt(id);
    }
  }

  /** Every string of letters without a leading `A` is the code of the id it decodes to. */
  lemma {:induction false} CodeDecode(s: string)
    requires IsUpperLetters(s)
    requires s == [] || s[0] != 'A'
    ensures Code(Decode(s)) == s
  {
    if s != [] {
      var p := s[..|s| - 1];
      var n := Decode(s);
      assert n / 26 == Decode(p) && n % 26 == Digit(s[|s| - 1]);
      CodeDecode(p);
      assert s == p + [s[|s| - 1]];
    }
  }

  /** The counter starts at 1024, so the first code ever issued is `BNK`:
      1 * 676 + 13 * 26 + 10 = 1024. */
  lemma FirstCode()
    ensures Code(1024) == "BNK"
  {
    assert 1 / 26 == 0 && 1 % 26 == 1;
    assert Code(1) == Code(0) + [Alphabet[1]] == "B";
    assert 39 / 26 == 1 && 39 % 26 == 13;
    assert Code(39) == Code(1) + [Alphabet[13]] == "BN";
    assert 1024 / 26 == 39 && 1024 % 26 == 10;
    assert Code(1024) == Code(39) + [Alphabet[10]];
  }
}
