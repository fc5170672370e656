/**
 * Shared vocabulary: machine integer ranges, optional values, the
 * exceptions the C# code can raise, and the string operations the
 * dispatcher relies on (ASCII lower-casing, ordinal StartsWith and
 * the first token of `Split(' ')`).
 */
module Base {

  /** C# `ulong`: Discord snowflakes for users, channels and guilds. */
  type ulong = x: int | 0 <= x < 0x1_0000_0000_0000_0000

  /** C# `int`. */
  type int32 = x: int | -0x8000_0000 <= x < 0x8000_0000

  datatype Option<T> = None | Some(value: T)

  /** The .NET exceptions that the modelled code can raise. */
  datatype Fault =
    | DuplicateKey      // Dictionary.Add on a key that is already present
    | KeyNotFound       // Dictionary indexer read on an absent key
    | IndexOutOfRange   // usage[0] on an empty array
    | NullReference     // member access on a null event

  /** The outcome of an operation that returns a value or throws. */
  datatype Try<T> = Ok(value: T) | Throws(fault: Fault)

  /** The outcome of an operation that returns nothing or throws. */
  datatype Status = Completed | Threw(fault: Fault)

  /** Two's-complement wrap-around of C# `int` addition (unchecked context). */
  function Wrap32(x: int): (r: int32)
    ensures -0x8000_0000 <= x < 0x8000_0000 ==> r == x
    ensures (r - x) % 0x1_0000_0000 == 0
  {
    (x + 0x8000_0000) % 0x1_0000_0000 - 0x8000_0000
  }

  /** Adding after wrapping is the same as wrapping after adding. */
  lemma WrapAdd(a: int, b: int)
    ensures Wrap32(Wrap32(a) + b) == Wrap32(a + b)
  {
    var q := (a + 0x8000_0000) / 0x1_0000_0000;
    assert Wrap32(a) == a - q * 0x1_0000_0000;
    ModShift(a + b + 0x8000_0000, q);
  }

  lemma ModShift(x: int, q: int)
    ensures (x - q * 0x1_0000_0000) % 0x1_0000_0000 == x % 0x1_0000_0000
  {
    var r := x % 0x1_0000_0000;
    var d := x / 0x1_0000_0000;
    assert x - q * 0x1_0000_0000 == (d - q) * 0x1_0000_0000 + r;
  }

  // ---------------------------------------------------------------------
  // Strings

  predicate IsUpperChar(c: char) {
    'A' <= c <= 'Z'
  }

  /** `char.ToLower` restricted to ASCII letters. */
  function LowerChar(c: char): (r: char)
    ensures !IsUpperChar(r)
    ensures IsUpperChar(c) ==> r as int == c as int + 32
    ensures !IsUpperChar(c) ==> r == c
  {
    if IsUpperChar(c) then (c as int + 32) as char else c
  }

  /** A string that `ToLower` leaves unchanged. */
  predicate IsLower(s: string) {
    forall i :: 0 <= i < |s| ==> !IsUpperChar(s[i])
  }

  /** `string.ToLower()` on ASCII letters; every other character is kept. */
  function Lower(s: string): (r: string)
    ensures |r| == |s|
    ensures IsLower(r)
    ensures forall i :: 0 <= i < |s| ==>
      && (IsUpperChar(s[i]) ==> r[i] as int == s[i] as int + 32)
      && (!IsUpperChar(s[i]) ==> r[i] == s[i])
  {
    seq(|s|, i requires 0 <= i < |s| => LowerChar(s[i]))
  }

  /** Lower-casing is the identity exactly on strings that are already lower case. */
  lemma LowerFixpoint(s: string)
    ensures Lower(s) == s <==> IsLower(s)
  {
    if IsLower(s) {
      assert forall i :: 0 <= i < |s| ==> Lower(s)[i] == s[i];
    }
  }

  /** Lower-casing twice is lower-casing once. */
  lemma LowerIdempotent(s: string)
    ensures Lower(Lower(s)) == Lower(s)
  {
    LowerFixpoint(Lower(s));
  }

  /** Ordinal `string.StartsWith`. */
  predicate StartsWith(s: string, p: string) {
    |p| <= |s| && s[..|p|] == p
  }

  /**
   * `s.Split(' ')[0]`: everything before the first space, or all of `s`
   * when it holds no space.
   */
  function FirstToken(s: string): (t: string)
    ensures StartsWith(s, t)
    ensures forall i :: 0 <= i < |t| ==> t[i] != ' '
    ensures |t| < |s| ==> s[|t|] == ' '
  {
    if s == [] || s[0] == ' ' then [] else [s[0]] + FirstToken(s[1..])
  }

  /** The three properties above determine the first token uniquely. */
  lemma {:induction false} FirstTokenUnique(s: string, t: string)
    requires StartsWith(s, t)
    requires forall i :: 0 <= i < |t| ==> t[i] != ' '
    requires |t| < |s| ==> s[|t|] == ' '
    ensures t == FirstToken(s)
  {
    if s == [] || s[0] == ' ' {
    } else {
      assert |t| > 0;
      assert t[0] == s[0];
      var t' := t[1..];
      assert s[1..][..|t'|] == t';
      assert |t'| < |s[1..]| ==> s[1..][|t'|] == s[|t|];
      FirstTokenUnique(s[1..], t');
      assert t == [s[0]] + t';
    }
  }

  /** A string without spaces is its own first token. */
  lemma FirstTokenOfWord(s: string)
    requires forall i :: 0 <= i < |s| ==> s[i] != ' '
    ensures FirstToken(s) == s
  {
    FirstTokenUnique(s, s);
  }

  /** Concatenation is associative. */
  lemma SeqAssoc<T>(a: seq<T>, b: seq<T>, c: seq<T>)
    ensures (a + b) + c == a + (b + c)
  {
  }
}
