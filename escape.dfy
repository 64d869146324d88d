/** `Dumper.EscapeString` (and its twin `Enumeration.EspaceString`): the
    `StringBuilder.Replace` of every key of the `EscapedChars` table by its
    value, one table entry after the other, in the table's order. */
module Escape {

  /** The `EscapedChars` dictionary, in its declaration order:
      NUL, BEL, BS, FF, LF, CR, HT, VT become a backslash and a letter. */
  const EscapedChars: seq<(char, string)> := [
    ('\0', "\\0"), ('\U{7}', "\\a"), ('\U{8}', "\\b"), ('\U{C}', "\\f"),
    ('\n', "\\n"), ('\r', "\\r"), ('\t', "\\t"), ('\U{B}', "\\v")]

  /** `StringBuilder.Replace(key, value)` for a one-character key: every
      occurrence, left to right. */
  function Replace(s: string, key: char, value: string): string
  {
    if s == [] then []
    else (if s[0] == key then value else [s[0]]) + Replace(s[1..], key, value)
  }

  // ---------------------------------------------------------------------
  // Reference definition: escaping character by character.

  predicate IsKey(table: seq<(char, string)>, c: char)
  {
    exists j :: 0 <= j < |table| && table[j].0 == c
  }

  /** The text one character stands for: the value of the first entry whose
      key it is, or the character itself. */
  function Lookup(table: seq<(char, string)>, c: char): string
  {
    if table == [] then [c] else if table[0].0 == c then table[0].1 else Lookup(table[1..], c)
  }

  function Translate(s: string, table: seq<(char, string)>): string
  {
    if s == [] then [] else Lookup(table, s[0]) + Translate(s[1..], table)
  }

  /** No value of the table contains a key of the table, so a later
      `Replace` never rewrites what an earlier one inserted. */
  predicate ValuesFreeOfKeys(table: seq<(char, string)>)
  {
    forall i, k :: 0 <= i < |table| && 0 <= k < |table[i].1| ==> !IsKey(table, table[i].1[k])
  }

  predicate IsEscapable(c: char)
  {
    c == '\0' || c == '\U{7}' || c == '\U{8}' || c == '\U{C}' ||
    c == '\n' || c == '\r' || c == '\t' || c == '\U{B}'
  }

  lemma {:induction false} TranslateAppend(a: string, b: string, table: seq<(char, string)>)
    ensures Translate(a + b, table) == Translate(a, table) + Translate(b, table)
  {
    if a == [] {
      assert a + b == b;
    } else {
      assert (a + b)[1..] == a[1..] + b;
      TranslateAppend(a[1..], b, table);
    }
  }

  lemma {:induction false} LookupNonKey(table: seq<(char, string)>, c: char)
    requires !IsKey(table, c)
    ensures Lookup(table, c) == [c]
  {
    if table != [] {
      assert table[0].0 != c;
      LookupNonKey(table[1..], c);
    }
  }

  lemma {:induction false} TranslateKeyFree(s: string, table: seq<(char, string)>)
    requires forall k :: 0 <= k < |s| ==> !IsKey(table, s[k])
    ensures Translate(s, table) == s
  {
    if s != [] {
      LookupNonKey(table, s[0]);
      TranslateKeyFree(s[1..], table);
    }
  }

  /** One `Replace` by the first entry, then the remaining entries character
      by character, is the whole table character by character. */
  lemma {:induction false} ReplaceThenTranslate(s: string, table: seq<(char, string)>)
    requires table != []
    requires Translate(table[0].1, table[1..]) == table[0].1
    ensures Translate(Replace(s, table[0].0, table[0].1), table[1..]) == Translate(s, table)
  {
    if s != [] {
      var head := if s[0] == table[0].0 then table[0].1 else [s[0]];
      TranslateAppend(head, Replace(s[1..], table[0].0, table[0].1), table[1..]);
      ReplaceThenTranslate(s[1..], table);
      if s[0] != table[0].0 {
        assert Translate([s[0]], table[1..]) == Lookup(table[1..], s[0]) + Translate([], table[1..]);
      }
    }
  }

  lemma {:induction false} ValuesFreeOfKeysTail(table: seq<(char, string)>)
    requires table != [] && ValuesFreeOfKeys(table)
    ensures ValuesFreeOfKeys(table[1..])
    ensures Translate(table[0].1, table[1..]) == table[0].1
  {
    var t := table[1..];
    forall i, k | 0 <= i < |t| && 0 <= k < |t[i].1| ensures !IsKey(t, t[i].1[k]) {
      assert t[i] == table[i + 1];
    }
    forall k | 0 <= k < |table[0].1| ensures !IsKey(t, table[0].1[k]) {
      assert !IsKey(table, table[0].1[k]);
    }
    TranslateKeyFree(table[0].1, t);
  }

  /** What escaping means: every character replaced by its escape, read off
      the table one character at a time. */
  function Escaped(s: string): string
  {
    Translate(s, EscapedChars)
  }

  lemma TranslateEmptyTable(s: string)
    ensures Translate(s, []) == s
  {
    TranslateKeyFree(s, []);
  }

  /** The `foreach` over the table, one `StringBuilder.Replace` per entry.
      Since no escape contains a key, the replacements never interfere and
      the result is the character-by-character escaping. */
  method EscapeString(str: string) returns (r: string)
    ensures r == Escaped(str)
  {
    var sb := str;
    EscapedCharsFreeOfKeys();
    for i := 0 to |EscapedChars|
      invariant ValuesFreeOfKeys(EscapedChars[i..])
      invariant Translate(sb, EscapedChars[i..]) == Escaped(str)
    {
      var t := EscapedChars[i..];
      ValuesFreeOfKeysTail(t);
      ReplaceThenTranslate(sb, t);
      assert t[1..] == EscapedChars[i + 1..];
      sb := Replace(sb, EscapedChars[i].0, EscapedChars[i].1);
    }
    TranslateEmptyTable(sb);
    return sb;
  }

  lemma EscapedCharsFreeOfKeys()
    ensures ValuesFreeOfKeys(EscapedChars)
    ensures forall c :: IsKey(EscapedChars, c) <==> IsEscapable(c)
  {
    forall c | IsEscapable(c) ensures IsKey(EscapedChars, c) {
      if c == '\0' { assert EscapedChars[0].0 == c; }
      else if c == '\U{7}' { assert EscapedChars[1].0 == c; }
      else if c == '\U{8}' { assert EscapedChars[2].0 == c; }
      else if c == '\U{C}' { assert EscapedChars[3].0 == c; }
      else if c == '\n' { assert EscapedChars[4].0 == c; }
      else if c == '\r' { assert EscapedChars[5].0 == c; }
      else if c == '\t' { assert EscapedChars[6].0 == c; }
      else { assert EscapedChars[7].0 == c; }
    }
  }

  /** The escaping of one character: one of the eight becomes backslash and
      letter, any other character stands for itself. */
  lemma {:induction false} LookupIsValue(table: seq<(char, string)>, c: char) returns (j: nat)
    requires IsKey(table, c)
    ensures j < |table| && table[j].0 == c && Lookup(table, c) == table[j].1
  {
    if table[0].0 == c {
      j := 0;
    } else {
      var w :| 0 <= w < |table| && table[w].0 == c;
      assert table[1..][w - 1].0 == c;
      var j' := LookupIsValue(table[1..], c);
      j := j' + 1;
    }
  }

  lemma EscapedOne(c: char)
    ensures IsEscapable(c) ==> |Lookup(EscapedChars, c)| == 2 && Lookup(EscapedChars, c)[0] == '\\'
    ensures !IsEscapable(c) ==> Lookup(EscapedChars, c) == [c]
    ensures forall k :: 0 <= k < |Lookup(EscapedChars, c)| ==> !IsEscapable(Lookup(EscapedChars, c)[k])
  {
    EscapedCharsFreeOfKeys();
    if IsEscapable(c) {
      var j := LookupIsValue(EscapedChars, c);
      var v := EscapedChars[j].1;
      assert |v| == 2 && v[0] == '\\' by {
        assert j < 8;
        if j == 0 {} else if j == 1 {} else if j == 2 {} else if j == 3 {}
        else if j == 4 {} else if j == 5 {} else if j == 6 {} else {}
      }
      forall k | 0 <= k < |v| ensures !IsEscapable(v[k]) {
        assert !IsKey(EscapedChars, v[k]);
      }
    } else {
      LookupNonKey(EscapedChars, c);
    }
  }

  /** What escaping promises: none of the eight control characters
      survives, and a string without them comes back unchanged. */
  lemma {:induction false} EscapedClean(s: string)
    ensures forall k :: 0 <= k < |Escaped(s)| ==> !IsEscapable(Escaped(s)[k])
    ensures (forall k :: 0 <= k < |s| ==> !IsEscapable(s[k])) ==> Escaped(s) == s
  {
    TranslateClean(s);
    if forall k :: 0 <= k < |s| ==> !IsEscapable(s[k]) {
      EscapedCharsFreeOfKeys();
      TranslateKeyFree(s, EscapedChars);
    }
  }

  lemma {:induction false} TranslateClean(s: string)
    ensures forall k :: 0 <= k < |Translate(s, EscapedChars)| ==> !IsEscapable(Translate(s, EscapedChars)[k])
  {
    if s != [] {
      EscapedOne(s[0]);
      TranslateClean(s[1..]);
    }
  }

  /** Escaping is not injective: a line feed and a backslash followed by `n`
      print the same. */
  lemma EscapeNotInjective()
    ensures Escaped("\n") == Escaped("\\n") == "\\n"
  {
    EscapedOne('\n');
    EscapedOne('\\');
    EscapedOne('n');
    assert Translate("\\n", EscapedChars) == Lookup(EscapedChars, '\\') + Translate("n", EscapedChars);
    assert Translate("n", EscapedChars) == Lookup(EscapedChars, 'n') + Translate("", EscapedChars);
  }
}
