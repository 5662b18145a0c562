/** Bytes of JSON text: the characters cJSON names, and where one text occurs inside another. */
module JsonText {

  /** C's `unsigned char`. */
  newtype byte = b: int | 0 <= b < 256

  const NUL: byte := 0
  const BACKSPACE: byte := 8
  const TAB: byte := 9
  const LINE_FEED: byte := 10
  const FORM_FEED: byte := 12
  const CARRIAGE_RETURN: byte := 13
  const SPACE: byte := 32
  const QUOTE: byte := 34
  const STAR: byte := 42
  const PLUS: byte := 43
  const COMMA: byte := 44
  const MINUS: byte := 45
  const DOT: byte := 46
  const SLASH: byte := 47
  const ZERO: byte := 48
  const NINE: byte := 57
  const COLON: byte := 58
  const UPPER_A: byte := 65
  const UPPER_E: byte := 69
  const UPPER_F: byte := 70
  const LBRACKET: byte := 91
  const BACKSLASH: byte := 92
  const RBRACKET: byte := 93
  const LOWER_A: byte := 97
  const LOWER_B: byte := 98
  const LOWER_E: byte := 101
  const LOWER_F: byte := 102
  const LOWER_N: byte := 110
  const LOWER_R: byte := 114
  const LOWER_T: byte := 116
  const LOWER_U: byte := 117
  const LBRACE: byte := 123
  const RBRACE: byte := 125

  /** "null", "false" and "true". */
  const NULL_WORD: seq<byte> := [110, 117, 108, 108]
  const FALSE_WORD: seq<byte> := [102, 97, 108, 115, 101]
  const TRUE_WORD: seq<byte> := [116, 114, 117, 101]

  predicate IsDigit(b: byte) {
    ZERO <= b <= NINE
  }

  /** The text t stands in c from position p on. */
  predicate At(c: seq<byte>, p: nat, t: seq<byte>): (r: bool)
    ensures r ==> p + |t| <= |c|
  {
    p + |t| <= |c| && c[p..p + |t|] == t
  }

  predicate NulFree(t: seq<byte>) {
    forall i :: 0 <= i < |t| ==> t[i] != NUL
  }

  /** What a C string function sees of a buffer: everything before the first NUL. */
  function CString(t: seq<byte>): (r: seq<byte>)
    ensures |r| <= |t| && r == t[..|r|]
    ensures NulFree(r)
    ensures |r| < |t| ==> t[|r|] == NUL
  {
    if t == [] || t[0] == NUL then [] else [t[0]] + CString(t[1..])
  }

  lemma CStringOfNulFree(t: seq<byte>)
    requires NulFree(t)
    ensures CString(t) == t
  {
  }

  lemma AtParts(c: seq<byte>, p: nat, a: seq<byte>, b: seq<byte>)
    requires At(c, p, a + b)
    ensures At(c, p, a) && At(c, p + |a|, b)
  {
    var ab := a + b;
    assert c[p..p + |a|] == ab[..|a|] == a;
    assert c[p + |a|..p + |a| + |b|] == ab[|a|..] == b;
  }

  lemma AtJoin(c: seq<byte>, p: nat, a: seq<byte>, b: seq<byte>)
    requires At(c, p, a) && At(c, p + |a|, b)
    ensures At(c, p, a + b)
  {
    assert c[p..p + |a + b|] == c[p..p + |a|] + c[p + |a|..p + |a| + |b|];
  }

  lemma Associative<T>(a: seq<T>, b: seq<T>, c: seq<T>)
    ensures (a + b) + c == a + (b + c)
  {
  }

  lemma AssociativeFour<T>(a: seq<T>, b: seq<T>, c: seq<T>, d: seq<T>)
    ensures (a + b) + c + d == a + (b + c + d)
  {
  }

  lemma AtIndex(c: seq<byte>, p: nat, t: seq<byte>, i: nat)
    requires At(c, p, t) && i < |t|
    ensures c[p + i] == t[i]
  {
    assert c[p..p + |t|][i] == t[i];
  }
}
