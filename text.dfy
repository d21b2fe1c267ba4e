/** The parts of java.lang.String and java.lang.Integer the server relies on,
    stated on Dafny strings (sequences of char) and unbounded integers. */
module Text {
  import opened Wrappers

  /** A byte as written to a file or a socket. */
  type byte = x: int | 0 <= x < 0x100

  /** A UTF-16 code unit, as returned by Reader.read(). */
  type CharUnit = x: int | 0 <= x < 0x1_0000

  const Int32Min: int := -0x8000_0000
  const Int32Max: int := 0x7fff_ffff

  // ---------------------------------------------------------------- trim

  /** String.trim() removes every leading and trailing char at or below U+0020. */
  predicate IsTrimmable(c: char) {
    c <= ' '
  }

  function TrimLeft(s: string): string {
    if s != [] && IsTrimmable(s[0]) then TrimLeft(s[1..]) else s
  }

  function TrimRight(s: string): string {
    if s != [] && IsTrimmable(s[|s| - 1]) then TrimRight(s[..|s| - 1]) else s
  }

  /** String.trim(). */
  function Trim(s: string): string {
    TrimRight(TrimLeft(s))
  }

  /** TrimLeft removes the longest prefix of trimmable chars. */
  lemma {:induction false} TrimLeftShape(s: string)
    ensures var r := TrimLeft(s);
      && |r| <= |s| && r == s[|s| - |r|..]
      && (forall i :: 0 <= i < |s| - |r| ==> IsTrimmable(s[i]))
      && (r == [] || !IsTrimmable(r[0]))
  {
    if s != [] && IsTrimmable(s[0]) {
      var t := s[1..];
      TrimLeftShape(t);
      var r := TrimLeft(t);
      assert TrimLeft(s) == r;
      assert r == t[|t| - |r|..] == s[|s| - |r|..];
      forall i | 0 <= i < |s| - |r|
        ensures IsTrimmable(s[i])
      {
        if i > 0 {
          assert s[i] == t[i - 1];
        }
      }
    }
  }

  /** TrimRight removes the longest suffix of trimmable chars. */
  lemma {:induction false} TrimRightShape(s: string)
    ensures var r := TrimRight(s);
      && |r| <= |s| && r == s[..|r|]
      && (forall i :: |r| <= i < |s| ==> IsTrimmable(s[i]))
      && (r == [] || !IsTrimmable(r[|r| - 1]))
  {
    if s != [] && IsTrimmable(s[|s| - 1]) {
      TrimRightShape(s[..|s| - 1]);
    }
  }

  /** String.trim() keeps the infix s[i..j] left once every trimmable char
      is removed from both ends; what remains neither starts nor ends with
      one. */
  lemma TrimShape(s: string)
    ensures exists i, j ::
              && 0 <= i <= j <= |s| && Trim(s) == s[i..j]
              && (forall k :: 0 <= k < i ==> IsTrimmable(s[k]))
              && (forall k :: j <= k < |s| ==> IsTrimmable(s[k]))
    ensures Trim(s) == [] || (!IsTrimmable(Trim(s)[0]) && !IsTrimmable(Trim(s)[|Trim(s)| - 1]))
  {
    var l := TrimLeft(s);
    TrimLeftShape(s);
    TrimRightShape(l);
    var i := |s| - |l|;
    var j := i + |Trim(s)|;
    assert Trim(s) == s[i..j];
    assert forall k :: j <= k < |s| ==> s[k] == l[k - i];
    if Trim(s) != [] {
      assert Trim(s)[0] == l[0];
    }
  }

  // ---------------------------------------------------------- lower case

  /** Character.toLowerCase restricted to ASCII letters. */
  function LowerChar(c: char): char {
    if 'A' <= c <= 'Z' then (c as int + 32) as char else c
  }

  function ToLower(s: string): (r: string)
    ensures |r| == |s|
    ensures forall i :: 0 <= i < |s| ==> r[i] == LowerChar(s[i])
  {
    seq(|s|, i requires 0 <= i < |s| => LowerChar(s[i]))
  }

  predicate StartsWith(s: string, prefix: string) {
    |prefix| <= |s| && s[..|prefix|] == prefix
  }

  // ----------------------------------------------------- index searches

  /** String.indexOf(c): the first position of c, or -1. */
  function IndexOf(s: string, c: char): (r: int)
    ensures -1 <= r < |s|
    ensures r == -1 <==> c !in s
    ensures r >= 0 ==> s[r] == c && c !in s[..r]
  {
    if s == [] then -1
    else if s[0] == c then 0
    else
      var k := IndexOf(s[1..], c);
      if k == -1 then -1
      else
        assert s[..k + 1] == [s[0]] + s[1..][..k];
        k + 1
  }

  /** String.lastIndexOf(c): the last position of c, or -1. */
  function LastIndexOf(s: string, c: char): (r: int)
    ensures -1 <= r < |s|
    ensures r == -1 <==> c !in s
    ensures r >= 0 ==> s[r] == c && c !in s[r + 1..]
  {
    if s == [] then -1
    else if s[|s| - 1] == c then |s| - 1
    else
      var init := s[..|s| - 1];
      assert s == init + [s[|s| - 1]];
      var k := LastIndexOf(init, c);
      assert k >= 0 ==> s[k + 1..] == init[k + 1..] + [s[|s| - 1]];
      k
  }

  /** The text after the last c holds no c, and no char the whole text lacks. */
  lemma AfterLast(s: string, c: char, d: char)
    ensures var k := LastIndexOf(s, c); var t := s[k + 1..];
      && c !in t && (d !in s ==> d !in t) && |t| == |s| - k - 1 && t == s[|s| - |t|..]
      && (c !in s ==> t == s)
      && (c in s ==> |t| < |s| && s[|s| - |t| - 1] == c)
  {
    var k := LastIndexOf(s, c);
    var t := s[k + 1..];
    if k == -1 {
      assert t == s;
    } else if d in t {
      var i :| 0 <= i < |t| && t[i] == d;
      assert s[k + 1 + i] == d;
    }
  }

  // ------------------------------------------------------- split(" ")

  /** Tokens joined back with single spaces. */
  function Join(ps: seq<string>): string {
    if |ps| == 0 then ""
    else if |ps| == 1 then ps[0]
    else ps[0] + " " + Join(ps[1..])
  }

  function Spaces(n: nat): (r: string)
    ensures |r| == n && forall i :: 0 <= i < n ==> r[i] == ' '
  {
    seq(n, _ => ' ')
  }

  function Empties(n: nat): (r: seq<string>)
    ensures |r| == n && forall i :: 0 <= i < n ==> r[i] == ""
  {
    seq(n, _ => "")
  }

  /** Cutting s at every single space: the tokens, empty ones included. */
  function Pieces(s: string): (r: seq<string>)
    ensures |r| >= 1
    ensures forall i :: 0 <= i < |r| ==> ' ' !in r[i]
    ensures Join(r) == s
    decreases |s|
  {
    var k := IndexOf(s, ' ');
    if k < 0 then [s]
    else
      var rest := Pieces(s[k + 1..]);
      assert s == s[..k] + " " + s[k + 1..];
      assert ([s[..k]] + rest)[1..] == rest;
      [s[..k]] + rest
  }

  /** The limit-0 rule of String.split: trailing empty tokens are removed. */
  function DropTrailingEmpty(ps: seq<string>): (r: seq<string>)
    ensures |r| <= |ps| && r == ps[..|r|]
    ensures r == [] || r[|r| - 1] != ""
    ensures forall i :: |r| <= i < |ps| ==> ps[i] == ""
  {
    if ps != [] && ps[|ps| - 1] == "" then DropTrailingEmpty(ps[..|ps| - 1]) else ps
  }

  /** String.split(" "): a string without a space is its own single token;
      otherwise the pieces with trailing empty ones removed. */
  function Split(s: string): seq<string> {
    if ' ' !in s then [s] else DropTrailingEmpty(Pieces(s))
  }

  lemma {:induction false} JoinCons(p: string, ps: seq<string>)
    requires ps != []
    ensures Join([p] + ps) == p + " " + Join(ps)
  {
    assert ([p] + ps)[1..] == ps;
  }

  /** Cutting at spaces undoes joining with spaces, when no token holds a space. */
  lemma {:induction false} PiecesJoin(ps: seq<string>)
    requires ps != []
    requires forall i :: 0 <= i < |ps| ==> ' ' !in ps[i]
    ensures Pieces(Join(ps)) == ps
    decreases |ps|
  {
    if |ps| == 1 {
      assert IndexOf(ps[0], ' ') == -1;
    } else {
      var s := Join(ps);
      JoinCons(ps[0], ps[1..]);
      assert [ps[0]] + ps[1..] == ps;
      assert s == ps[0] + " " + Join(ps[1..]);
      assert s[..|ps[0]|] == ps[0];
      assert s[|ps[0]|] == ' ';
      assert ' ' !in s[..|ps[0]|];
      assert IndexOf(s, ' ') == |ps[0]|;
      assert s[|ps[0]| + 1..] == Join(ps[1..]);
      PiecesJoin(ps[1..]);
    }
  }

  lemma {:induction false} JoinEmpties(ps: seq<string>, n: nat)
    requires ps != []
    ensures Join(ps + Empties(n)) == Join(ps) + Spaces(n)
    decreases |ps|
  {
    if |ps| == 1 {
      JoinSingleEmpties(ps[0], n);
    } else {
      assert (ps + Empties(n))[1..] == ps[1..] + Empties(n);
      JoinEmpties(ps[1..], n);
      assert Join(ps + Empties(n)) == ps[0] + " " + (Join(ps[1..]) + Spaces(n));
    }
  }

  lemma {:induction false} JoinSingleEmpties(p: string, n: nat)
    ensures Join([p] + Empties(n)) == p + Spaces(n)
    decreases n
  {
    if n > 0 {
      JoinSingleEmpties("", n - 1);
      assert ([p] + Empties(n))[1..] == [""] + Empties(n - 1);
      assert Spaces(n) == " " + Spaces(n - 1);
    } else {
      assert [p] + Empties(n) == [p];
    }
  }

  /** Accepting direction of the request-line check: three space-free tokens,
      the last non-empty, followed by any number of spaces, split into exactly
      those three tokens. */
  lemma SplitThree(a: string, b: string, c: string, n: nat)
    requires ' ' !in a && ' ' !in b && ' ' !in c && c != ""
    ensures Split(a + " " + b + " " + c + Spaces(n)) == [a, b, c]
  {
    var ps := [a, b, c];
    var s := a + " " + b + " " + c + Spaces(n);
    JoinCons(b, [c]);
    assert [b] + [c] == ps[1..];
    JoinCons(a, ps[1..]);
    assert [a] + ps[1..] == ps;
    assert Join(ps) == a + " " + b + " " + c;
    JoinEmpties(ps, n);
    assert forall i :: 0 <= i < |ps + Empties(n)| ==> ' ' !in (ps + Empties(n))[i];
    PiecesJoin(ps + Empties(n));
    assert s[|a|] == ' ';
    assert Pieces(s) == ps + Empties(n);
    DropEmpties(ps, n);
  }

  lemma {:induction false} DropEmpties(ps: seq<string>, n: nat)
    requires ps != [] && ps[|ps| - 1] != ""
    ensures DropTrailingEmpty(ps + Empties(n)) == ps
    decreases n
  {
    if n > 0 {
      assert (ps + Empties(n))[..|ps| + n - 1] == ps + Empties(n - 1);
      DropEmpties(ps, n - 1);
    } else {
      assert ps + Empties(n) == ps;
    }
  }

  /** Rejecting direction: a line that does split into three tokens is those
      three space-free tokens, the last non-empty, joined by single spaces and
      followed only by spaces. */
  lemma SplitThreeShape(s: string)
    requires |Split(s)| == 3
    ensures var t := Split(s);
      ' ' !in t[0] && ' ' !in t[1] && ' ' !in t[2] && t[2] != ""
      && exists n: nat :: s == t[0] + " " + t[1] + " " + t[2] + Spaces(n)
  {
    var t := Split(s);
    var ps := Pieces(s);
    assert ' ' in s;
    assert t == DropTrailingEmpty(ps);
    var n := |ps| - 3;
    DroppedEmpties(ps);
    assert ps == t + Empties(n);
    JoinEmpties(t, n);
    JoinThree(t);
    assert s == t[0] + " " + t[1] + " " + t[2] + Spaces(n);
  }

  /** The pieces are what split keeps followed by the empty tokens it drops. */
  lemma DroppedEmpties(ps: seq<string>)
    ensures var r := DropTrailingEmpty(ps);
      ps == r + Empties(|ps| - |r|)
  {
    var r := DropTrailingEmpty(ps);
    var e := Empties(|ps| - |r|);
    assert forall i :: 0 <= i < |ps| ==> ps[i] == (r + e)[i];
  }

  lemma JoinThree(t: seq<string>)
    requires |t| == 3
    ensures Join(t) == t[0] + " " + t[1] + " " + t[2]
  {
    JoinCons(t[1], [t[2]]);
    assert [t[1]] + [t[2]] == t[1..];
    JoinCons(t[0], t[1..]);
    assert [t[0]] + t[1..] == t;
  }

  // ----------------------------------------------------------- integers

  predicate IsDigit(c: char) {
    '0' <= c <= '9'
  }

  predicate AllDigits(s: string) {
    forall i :: 0 <= i < |s| ==> IsDigit(s[i])
  }

  /** The value of a string of decimal digits. */
  function DigitsValue(s: string): nat
    requires AllDigits(s)
  {
    if s == [] then 0
    else DigitsValue(s[..|s| - 1]) * 10 + (s[|s| - 1] as int - '0' as int)
  }

  /** Integer.parseInt(s) on ASCII text: an optional sign, at least one digit,
      a value inside the 32-bit range; None where Java throws
      NumberFormatException. */
  function ParseInt(s: string): (r: Option<int>)
    ensures r.Some? ==> Int32Min <= r.value <= Int32Max
    ensures r.Some? ==> s != [] && (IsDigit(s[0]) || s[0] == '-' || s[0] == '+')
  {
    if s == [] then None
    else
      var digits := if s[0] == '-' || s[0] == '+' then s[1..] else s;
      if digits == [] || !AllDigits(digits) then None
      else
        var v: int := if s[0] == '-' then 0 - DigitsValue(digits) as int else DigitsValue(digits);
        if Int32Min <= v <= Int32Max then Some(v) else None
  }

  function DigitChar(d: int): char
    requires 0 <= d < 10
  {
    ('0' as int + d) as char
  }

  /** Decimal rendering of a natural number, most significant digit first. */
  function ShowNat(n: nat): (r: string)
    ensures r != [] && AllDigits(r)
  {
    if n < 10 then [DigitChar(n)] else ShowNat(n / 10) + [DigitChar(n % 10)]
  }

  /** Integer.toString / string concatenation of an int. */
  function ShowInt(n: int): string {
    if n < 0 then "-" + ShowNat(-n) else ShowNat(n)
  }

  lemma {:induction false} DigitsOfShowNat(n: nat)
    ensures DigitsValue(ShowNat(n)) == n
    decreases n
  {
    if n >= 10 {
      DigitsOfShowNat(n / 10);
      var s := ShowNat(n);
      assert s[..|s| - 1] == ShowNat(n / 10);
    }
  }

  /** The rendering is canonical: it starts with '0' only for zero itself. */
  lemma {:induction false} ShowNatCanonical(n: nat)
    ensures ShowNat(n)[0] == '0' <==> n == 0
    decreases n
  {
    if n >= 10 {
      ShowNatCanonical(n / 10);
      assert ShowNat(n)[0] == ShowNat(n / 10)[0];
    }
  }

  /** Integer.parseInt reads back what int-to-string concatenation prints. */
  lemma ParseShowInt(n: int)
    requires Int32Min <= n <= Int32Max
    ensures ParseInt(ShowInt(n)) == Some(n)
  {
    var m := if n < 0 then -n else n;
    DigitsOfShowNat(m);
    var s := ShowInt(n);
    if n < 0 {
      assert s[1..] == ShowNat(m);
    } else {
      assert IsDigit(ShowNat(m)[0]);
    }
  }

  /** The (int) cast of a long: keep the low 32 bits, two's complement. */
  function Int32Wrap(n: int): (r: int)
    ensures Int32Min <= r <= Int32Max
    ensures (r - n) % 0x1_0000_0000 == 0
    ensures Int32Min <= n <= Int32Max ==> r == n
  {
    var m := n % 0x1_0000_0000;
    if m <= Int32Max then m else m - 0x1_0000_0000
  }
}
