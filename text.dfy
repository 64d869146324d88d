/** Small string helpers shared by the dumpers: indentation, decimal
    rendering of indices, joining and left padding. */
module Text {

  /** `new string(' ', n)`. */
  function Spaces(n: nat): (r: string)
    ensures |r| == n
    ensures forall i :: 0 <= i < n ==> r[i] == ' '
  {
    if n == 0 then "" else Spaces(n - 1) + " "
  }

  function Digit(d: nat): (c: char)
    requires d < 10
    ensures '0' <= c <= '9'
  {
    "0123456789"[d]
  }

  /** Decimal text of a non-negative int, as `int.ToString()` prints it. */
  function NatToString(n: nat): (r: string)
    ensures |r| > 0
    ensures forall i :: 0 <= i < |r| ==> '0' <= r[i] <= '9'
  {
    if n < 10 then [Digit(n)] else NatToString(n / 10) + [Digit(n % 10)]
  }

  /** `string.Join(sep, parts)`. */
  function Join(sep: string, parts: seq<string>): string
  {
    if |parts| == 0 then ""
    else if |parts| == 1 then parts[0]
    else parts[0] + sep + Join(sep, parts[1..])
  }

  function NatsToStrings(ns: seq<nat>): (r: seq<string>)
    ensures |r| == |ns|
    ensures forall i :: 0 <= i < |ns| ==> r[i] == NatToString(ns[i])
  {
    if ns == [] then [] else [NatToString(ns[0])] + NatsToStrings(ns[1..])
  }

  /** Each line followed by the line terminator `nl`, as successive
      `AppendLine` calls on a `StringBuilder` produce it. */
  function Terminated(lines: seq<string>, nl: string): string
  {
    if lines == [] then "" else lines[0] + nl + Terminated(lines[1..], nl)
  }

  lemma {:induction false} TerminatedAppend(a: seq<string>, b: seq<string>, nl: string)
    ensures Terminated(a + b, nl) == Terminated(a, nl) + Terminated(b, nl)
  {
    if a != [] {
      assert (a + b)[1..] == a[1..] + b;
      TerminatedAppend(a[1..], b, nl);
    } else {
      assert a + b == b;
    }
  }

  /** The UTF-16 code units a character takes: two for a character outside
      the Basic Multilingual Plane, one for any other. */
  function Utf16Units(c: char): nat
  {
    if c < '\U{10000}' then 1 else 2
  }

  /** `string.Length`, which counts UTF-16 code units rather than
      characters. */
  function Utf16Length(s: string): nat
  {
    if s == [] then 0 else Utf16Units(s[0]) + Utf16Length(s[1..])
  }

  lemma {:induction false} Utf16Append(a: string, b: string)
    ensures Utf16Length(a + b) == Utf16Length(a) + Utf16Length(b)
  {
    if a != [] {
      assert (a + b)[1..] == a[1..] + b;
      Utf16Append(a[1..], b);
    } else {
      assert a + b == b;
    }
  }

  /** A text within the Basic Multilingual Plane is as long in code units
      as in characters, and never shorter otherwise. */
  lemma {:induction false} Utf16Bounds(s: string)
    ensures |s| <= Utf16Length(s) <= 2 * |s|
    ensures (forall k :: 0 <= k < |s| ==> s[k] < '\U{10000}') ==> Utf16Length(s) == |s|
  {
    if s != [] {
      Utf16Bounds(s[1..]);
      if forall k :: 0 <= k < |s| ==> s[k] < '\U{10000}' {
        assert forall k :: 0 <= k < |s[1..]| ==> s[1..][k] == s[k + 1];
      }
    }
  }

  /** `string.Format("{0,w}", s)`: right-aligned in a field `w` code units
      wide. */
  function PadLeft(s: string, w: nat): string
  {
    if Utf16Length(s) < w then Spaces(w - Utf16Length(s)) + s else s
  }

  /** The field is `w` code units wide or, for a longer text, exactly as
      wide as the text: the text is never cut, and only spaces go before
      it, as many as the text is short of `w`. */
  lemma PadLeftShape(s: string, w: nat)
    ensures Utf16Length(PadLeft(s, w)) == if Utf16Length(s) < w then w else Utf16Length(s)
    ensures |PadLeft(s, w)| == |s| + (if Utf16Length(s) < w then w - Utf16Length(s) else 0)
    ensures PadLeft(s, w)[|PadLeft(s, w)| - |s|..] == s
    ensures forall i :: 0 <= i < |PadLeft(s, w)| - |s| ==> PadLeft(s, w)[i] == ' '
  {
    if Utf16Length(s) < w {
      var n := w - Utf16Length(s);
      Utf16Append(Spaces(n), s);
      Utf16Bounds(Spaces(n));
    }
  }
}
