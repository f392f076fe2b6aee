/**
  escapeStr: prints a text as the inside of a quoted SQL literal, leaving the
  quotes for characters that need CHAR(k). Bytes are characters below 256.
 */
module EscapeStr {
  import opened Wrappers

  const QUOTE := '\''

  ghost predicate Bytes(m: string) {
    forall i :: 0 <= i < |m| ==> (m[i] as int) < 256
  }

  predicate High(c: char) {
    c as int >= 0x80
  }

  // ---------------------------------------------------------------- what an expression means

  /** The value of a sum of quoted literals and CHAR(k) terms, read from the
      start of a term. A doubled quote in a literal stands for one. */
  function Term(t: string, acc: string): Option<string>
    decreases |t|
  {
    if t == [] then None
    else if t[0] == QUOTE then Literal(t[1..], acc)
    else if |t| > 5 && t[..5] == "CHAR(" then Number(t[5..], 0, acc)
    else None
  }

  function Literal(t: string, acc: string): Option<string>
    decreases |t|
  {
    if t == [] then None
    else if t[0] != QUOTE then Literal(t[1..], acc + [t[0]])
    else if |t| > 1 && t[1] == QUOTE then Literal(t[2..], acc + [QUOTE])
    else After(t[1..], acc)
  }

  function After(t: string, acc: string): Option<string>
    decreases |t|
  {
    if t == [] then Some(acc) else if t[0] == '+' then Term(t[1..], acc) else None
  }

  function Number(t: string, k: nat, acc: string): Option<string>
    decreases |t|
  {
    if t == [] then None
    else if t[0] == ')' then (if k < 256 then After(t[1..], acc + [k as char]) else None)
    else if '0' <= t[0] <= '9' then Number(t[1..], 10 * k + (t[0] as int - '0' as int), acc)
    else None
  }

  function Denotes(t: string): Option<string> {
    Term(t, [])
  }

  // ---------------------------------------------------------------- what is printed

  function Digit(k: nat): char {
    (k % 10 + '0' as int) as char
  }

  /** "CHAR(%u)" of a byte from 128 on */
  function CharOfHigh(c: char): string {
    "CHAR(" + [Digit(c as int / 100), Digit(c as int / 10), Digit(c as int)] + ")"
  }

  /** mysql_stc_escape */
  function Special(c: char): Option<string> {
    if c == '\0' then Some("CHAR(0)") else if c == QUOTE then Some("CHAR(39)") else None
  }

  /** Has to be written as a CHAR term. */
  predicate Strange(m: string, n: nat, i: nat)
    requires i < n < |m|
  {
    (High(m[i]) && i == n - 1) || Special(m[i]).Some?
  }

  predicate Group(m: string, n: nat, i: nat)
    requires i < n < |m|
  {
    High(m[i]) && i < n - 1
  }

  function Word(c: char): string
    requires High(c) || Special(c).Some?
  {
    if High(c) then CharOfHigh(c) else Special(c).value
  }

  /** What is written for m[i..n]; `out` says that the text stands behind a CHAR
      term (bolastescape). */
  function Printed(m: string, n: nat, i: nat, out: bool): string
    requires n < |m|
    decreases n - i
  {
    if i >= n then ""
    else if Group(m, n, i) then
      (if out then "+'" else "") + (m[i..i + 3] + Printed(m, n, i + 3, false))
    else if Strange(m, n, i) then
      (if out then "+" else "'+") + (Word(m[i]) + ((if i + 1 >= n then "+'" else "") + Printed(m, n, i + 1, true)))
    else
      (if out then "+'" else "") + ([m[i]] + Printed(m, n, i + 1, false))
  }

  /** How each character is written inside a literal: a byte from 128 on is copied
      with the two behind it, unless it is the last of the source; that one, a NUL
      and a quote become a CHAR term outside of the literal; any other is copied. */
  lemma PrintedIs(m: string, n: nat, i: nat)
    requires i < n < |m|
    ensures (m[i] as int) >= 0x80 && i + 1 < n ==> Printed(m, n, i, false) == m[i..i + 3] + Printed(m, n, i + 3, false)
    ensures (m[i] as int) >= 0x80 && i + 1 == n ==> Printed(m, n, i, false) == "'+" + Word(m[i]) + "+'"
    ensures m[i] == '\0' ==> exists s :: Printed(m, n, i, false) == "'+CHAR(0)" + s + Printed(m, n, i + 1, true)
    ensures m[i] == QUOTE ==> exists s :: Printed(m, n, i, false) == "'+CHAR(39)" + s + Printed(m, n, i + 1, true)
    ensures (m[i] as int) < 0x80 && m[i] != '\0' && m[i] != QUOTE ==>
      Printed(m, n, i, false) == [m[i]] + Printed(m, n, i + 1, false)
  {
    var s := if i + 1 >= n then "+'" else "";
    var more := Printed(m, n, i + 1, true);
    assert i + 1 == n ==> more == "";
    if m[i] == '\0' || m[i] == QUOTE {
      assert "'+" + (Word(m[i]) + (s + more)) == "'+" + Word(m[i]) + s + more;
      assert "'+" + "CHAR(0)" == "'+CHAR(0)" && "'+" + "CHAR(39)" == "'+CHAR(39)";
    }
  }

  /** A text of other characters is printed as it is. */
  lemma {:induction false} CopiedAsIs(m: string, n: nat, i: nat)
    requires i <= n < |m| && forall j :: i <= j < n ==> (m[j] as int) < 0x80 && m[j] != '\0' && m[j] != QUOTE
    ensures Printed(m, n, i, false) == m[i..n]
    decreases n - i
  {
    if i < n {
      CopiedAsIs(m, n, i + 1);
      assert m[i..n] == [m[i]] + m[i + 1..n];
    }
  }

  function CString(s: string): string {
    if s == [] || s[0] == '\0' then [] else [s[0]] + CString(s[1..])
  }

  /** The printed rest up to the first NUL, with the closing quote. */
  function Text(m: string, n: nat, i: nat, out: bool): (t: string)
    requires n < |m|
    ensures t != []
  {
    CString(Printed(m, n, i, out)) + "'"
  }

  function Prefixed(p: string, rest: Option<string>): Option<string> {
    if rest.Some? then Some(p + rest.value) else None
  }

  /** What the printed rest of the source stands for, None for no expression. A
      group is copied as it is: a NUL in it ends the text, two quotes in it stand
      for one, a single one ends the literal, and the third byte may lie behind
      the source. */
  function Seen(m: string, n: nat, i: nat): Option<string>
    requires n < |m|
    decreases n - i
  {
    if i >= n then Some("")
    else if Group(m, n, i) then
      if m[i + 1] == '\0' then Some([m[i]])
      else if m[i + 1] == QUOTE then
        if m[i + 2] == QUOTE then Prefixed([m[i], QUOTE], Seen(m, n, i + 3)) else None
      else if m[i + 2] == '\0' then Some([m[i], m[i + 1]])
      else if m[i + 2] == QUOTE then None
      else Prefixed(m[i..i + 3], Seen(m, n, i + 3))
    else Prefixed([m[i]], Seen(m, n, i + 1))
  }

  /** The group of three at i, which a high byte other than the last takes along,
      is printed as what it is: no NUL and no quote is in it, but for a third byte
      that is the terminator behind the source; or the source ends with a quote
      and a second one happens to lie behind it. */
  predicate GroupWhole(m: string, n: nat, i: nat)
    requires i + 2 <= n < |m|
  {
    && m[i + 1] != '\0'
    && if m[i + 1] == QUOTE || m[i + 2] == QUOTE then i + 2 == n && m[i + 1] == m[i + 2]
       else m[i + 2] == '\0' <==> i + 2 == n
  }

  predicate GroupsWhole(m: string, n: nat, i: nat)
    requires n < |m|
    decreases n - i
  {
    if i >= n then true
    else if Group(m, n, i) then GroupWhole(m, n, i) && GroupsWhole(m, n, i + 3)
    else GroupsWhole(m, n, i + 1)
  }

  /** The printer gets from j to i, and the groups on its way are whole. */
  predicate WholeUpTo(m: string, n: nat, j: nat, i: nat)
    requires n < |m|
    decreases n - j
  {
    if j >= i || j >= n then j == i
    else if Group(m, n, j) then GroupWhole(m, n, j) && WholeUpTo(m, n, j + 3, i)
    else WholeUpTo(m, n, j + 1, i)
  }

  lemma {:induction false} BrokenLater(m: string, n: nat, j: nat, i: nat)
    requires i < n < |m| && WholeUpTo(m, n, j, i) && Seen(m, n, i) == None
    ensures Seen(m, n, j) == None
    decreases n - j
  {
    if j < i {
      BrokenLater(m, n, if Group(m, n, j) then j + 3 else j + 1, i);
    }
  }

  // ---------------------------------------------------------------- meaning

  lemma {:induction false} CStringCat(a: string, b: string)
    requires '\0' !in a
    ensures CString(a + b) == a + CString(b)
  {
    if a == [] {
      assert a + b == b;
    } else {
      assert (a + b)[1..] == a[1..] + b;
      CStringCat(a[1..], b);
    }
  }

  lemma ReadDigit(d: nat, t: string, k: nat, acc: string)
    ensures Number([Digit(d)] + t, k, acc) == Number(t, 10 * k + d % 10, acc)
  {
    assert ([Digit(d)] + t)[1..] == t;
  }

  lemma ReadClose(k: nat, t: string, acc: string)
    requires k < 256
    ensures Number(")" + t, k, acc) == After(t, acc + [k as char])
  {
    assert (")" + t)[1..] == t;
  }

  lemma ReadOpen(t: string, acc: string)
    requires t != []
    ensures Term("CHAR(" + t, acc) == Number(t, 0, acc)
  {
    assert ("CHAR(" + t)[..5] == "CHAR(" && ("CHAR(" + t)[5..] == t;
  }

  lemma DigitChars()
    ensures Digit(0) == '0' && Digit(3) == '3' && Digit(9) == '9'
  {
  }

  /** A CHAR term is read as its byte. */
  lemma ReadChar(c: char, rest: string, acc: string)
    requires (c as int) < 256 && (High(c) || Special(c).Some?)
    ensures Term(Word(c) + rest, acc) == After(rest, acc + [c])
  {
    hide Number, Term, After, Digit;
    var k, t := c as int, ")" + rest;
    if High(c) {
      var a, b, d := k / 100, k / 10, k;
      assert Word(c) + rest == "CHAR(" + ([Digit(a)] + ([Digit(b)] + ([Digit(d)] + t)));
      ReadOpen([Digit(a)] + ([Digit(b)] + ([Digit(d)] + t)), acc);
      ReadDigit(a, [Digit(b)] + ([Digit(d)] + t), 0, acc);
      ReadDigit(b, [Digit(d)] + t, a % 10, acc);
      ReadDigit(d, t, 10 * (a % 10) + b % 10, acc);
      assert 10 * (10 * (a % 10) + b % 10) + d % 10 == k;
    } else if c == '\0' {
      DigitChars();
      assert Word(c) + rest == "CHAR(" + ([Digit(0)] + t);
      ReadOpen([Digit(0)] + t, acc);
      ReadDigit(0, t, 0, acc);
    } else {
      DigitChars();
      assert Word(c) + rest == "CHAR(" + ([Digit(3)] + ([Digit(9)] + t));
      ReadOpen([Digit(3)] + ([Digit(9)] + t), acc);
      ReadDigit(3, [Digit(9)] + t, 0, acc);
      ReadDigit(9, t, 3, acc);
    }
    ReadClose(k, rest, acc);
  }

  /** Behind a term the literal is opened again. */
  lemma Reopen(t: string, acc: string)
    ensures After("+'" + t, acc) == Literal(t, acc)
  {
    assert ("+'" + t)[1..] == "'" + t && ("'" + t)[1..] == t;
  }

  /** In front of a term the literal is closed. */
  lemma Close(t: string, acc: string)
    ensures Literal("'+" + t, acc) == Term(t, acc) == After("+" + t, acc)
  {
    assert ("'+" + t)[1..] == "+" + t && ("+" + t)[1..] == t;
  }

  lemma ReadPlain(c: char, t: string, acc: string)
    requires c != QUOTE
    ensures Literal([c] + t, acc) == Literal(t, acc + [c])
  {
    assert ([c] + t)[1..] == t;
  }

  lemma ReadEnd(acc: string)
    ensures Literal("'", acc) == Some(acc)
  {
  }

  /** With the literal open (or, after a CHAR term, to be opened again) the text
      is read as what is seen of the source. */
  ghost predicate Reads(m: string, n: nat, i: nat, out: bool, acc: string)
    requires n < |m|
  {
    var t := Text(m, n, i, out);
    (if out then After(t, acc) else Literal(t, acc)) == Prefixed(acc, Seen(m, n, i))
  }

  /** Opening the literal again if needed, then reading what is in it. */
  lemma Opened(out: bool, body: string, acc: string)
    ensures var t := CString((if out then "+'" else "") + body) + "'";
      (if out then After(t, acc) else Literal(t, acc)) == Literal(CString(body) + "'", acc)
  {
    if out {
      CStringCat("+'", body);
      assert "+'" + CString(body) + "'" == "+'" + (CString(body) + "'");
      Reopen(CString(body) + "'", acc);
    } else {
      assert "" + body == body;
    }
  }

  lemma GroupReads(m: string, n: nat, i: nat, out: bool, acc: string)
    requires i < n < |m| && Group(m, n, i) && m[i + 1] != QUOTE && m[i + 2] != QUOTE
    requires Reads(m, n, i + 3, false, acc + m[i..i + 3])
    ensures Reads(m, n, i, out, acc)
  {
    var rest := Printed(m, n, i + 3, false);
    var a, b, c := m[i], m[i + 1], m[i + 2];
    assert m[i..i + 3] == [a, b, c];
    Opened(out, m[i..i + 3] + rest, acc);
    assert m[i..i + 3] + rest == [a] + ([b] + ([c] + rest));
    CutAtNul(a, b, c, rest, acc);
    if Seen(m, n, i + 3).Some? {
      AddedBytes(acc, a, b, c, Seen(m, n, i + 3).value);
    } else {
      AddedBytes(acc, a, b, c, []);
    }
    ReadEnd(acc + [a]);
    ReadEnd(acc + [a, b]);
  }

  /** A group with a quote in it. */
  lemma QuoteReads(m: string, n: nat, i: nat, out: bool, acc: string)
    requires i < n < |m| && Group(m, n, i) && (m[i + 1] == QUOTE || m[i + 2] == QUOTE)
    requires Reads(m, n, i + 3, false, acc + [m[i], QUOTE])
    ensures Reads(m, n, i, out, acc)
  {
    var rest, t := Printed(m, n, i + 3, false), Text(m, n, i + 3, false);
    var a, b, c := m[i], m[i + 1], m[i + 2];
    assert m[i..i + 3] + rest == [a] + ([b] + ([c] + rest));
    Opened(out, m[i..i + 3] + rest, acc);
    PlainCString(a, [b] + ([c] + rest), acc);
    Unread(m, n, i + 3, 0, acc + [a]);
    Unread(m, n, i + 3, 0, acc + [a] + [b]);
    if b == QUOTE {
      QuoteFirst(c, rest, acc + [a]);
      assert acc + [a] + [QUOTE] == acc + [a, QUOTE];
      if Seen(m, n, i + 3).Some? {
        Concat(acc, [a, QUOTE], Seen(m, n, i + 3).value);
      }
    } else {
      PlainCString(b, [c] + rest, acc + [a]);
      QuoteThen(rest, acc + [a] + [b]);
      Unread(m, n, i + 3, 0, acc + [a] + [b] + [QUOTE]);
      ReadEnd(acc + [a]);
    }
  }

  lemma AddedBytes(acc: string, a: char, b: char, c: char, rest: string)
    ensures acc + [a] + [b] == acc + [a, b] && acc + [a] + [b] + [c] == acc + [a, b, c]
    ensures acc + [a, b, c] + rest == acc + ([a, b, c] + rest)
  {
  }

  /** Three bytes in a literal, of which a NUL ends the text. */
  lemma CutAtNul(a: char, b: char, c: char, rest: string, acc: string)
    requires QUOTE !in {a, b, c} && a != '\0'
    ensures Literal(CString([a] + ([b] + ([c] + rest))) + "'", acc) ==
            if b == '\0' then Literal("'", acc + [a])
            else if c == '\0' then Literal("'", acc + [a] + [b])
            else Literal(CString(rest) + "'", acc + [a] + [b] + [c])
  {
    PlainCString(a, [b] + ([c] + rest), acc);
    PlainCString(b, [c] + rest, acc + [a]);
    PlainCString(c, rest, acc + [a] + [b]);
  }

  lemma PlainCString(c: char, rest: string, acc: string)
    requires c != QUOTE
    ensures Literal(CString([c] + rest) + "'", acc) ==
            if c == '\0' then Literal("'", acc) else Literal(CString(rest) + "'", acc + [c])
  {
    assert ([c] + rest)[1..] == rest;
    if c != '\0' {
      assert CString([c] + rest) + "'" == [c] + (CString(rest) + "'");
      ReadPlain(c, CString(rest) + "'", acc);
    }
  }

  lemma PlainReads(m: string, n: nat, i: nat, out: bool, acc: string)
    requires i < n < |m| && !Group(m, n, i) && !Strange(m, n, i)
    requires Reads(m, n, i + 1, false, acc + [m[i]])
    ensures Reads(m, n, i, out, acc)
  {
    var rest := Printed(m, n, i + 1, false);
    Opened(out, [m[i]] + rest, acc);
    PlainCString(m[i], rest, acc);
    if Seen(m, n, i + 1).Some? {
      Concat(acc, [m[i]], Seen(m, n, i + 1).value);
    }
  }

  lemma StrangeReads(m: string, n: nat, i: nat, out: bool, acc: string)
    requires Bytes(m) && i < n < |m| && !Group(m, n, i) && Strange(m, n, i)
    requires i + 1 < n ==> Reads(m, n, i + 1, true, acc + [m[i]])
    ensures Reads(m, n, i, out, acc)
  {
    var c, head := m[i], if out then "+" else "'+";
    var tail := (if i + 1 >= n then "+'" else "") + Printed(m, n, i + 1, true);
    WordCString(c, tail);
    CStringCat(head, Word(c) + tail);
    var t := CString(tail) + "'";
    Concat(head, Word(c) + CString(tail), "'");
    Concat(Word(c), CString(tail), "'");
    Close(Word(c) + t, acc);
    ReadChar(c, t, acc);
    if Seen(m, n, i + 1).Some? {
      Concat(acc, [c], Seen(m, n, i + 1).value);
    }
    if i + 1 >= n {
      LastReads(acc + [c]);
      assert acc + [c] + "" == acc + [c];
    } else {
      assert tail == Printed(m, n, i + 1, true);
    }
  }

  lemma LastReads(acc: string)
    ensures After(CString("+'" + "") + "'", acc) == Some(acc)
  {
    CStringCat("+'", "");
    assert "+'" + "" + "'" == "+'" + "'";
    Reopen("'", acc);
    ReadEnd(acc);
  }

  lemma WordCString(c: char, tail: string)
    requires High(c) || Special(c).Some?
    ensures CString(Word(c) + tail) == Word(c) + CString(tail)
  {
    CStringCat(Word(c), tail);
  }

  lemma {:induction false} AllReads(m: string, n: nat, i: nat, out: bool, acc: string)
    requires Bytes(m) && n < |m| && (out ==> i < n)
    ensures Reads(m, n, i, out, acc)
    decreases n - i
  {
    if i >= n {
      ReadEnd(acc);
      assert "" + "'" == "'" && acc + "" == acc;
    } else if Group(m, n, i) {
      if m[i + 1] == QUOTE || m[i + 2] == QUOTE {
        AllReads(m, n, i + 3, false, acc + [m[i], QUOTE]);
        QuoteReads(m, n, i, out, acc);
      } else {
        AllReads(m, n, i + 3, false, acc + m[i..i + 3]);
        GroupReads(m, n, i, out, acc);
      }
    } else if Strange(m, n, i) {
      if i + 1 < n {
        AllReads(m, n, i + 1, true, acc + [m[i]]);
      }
      StrangeReads(m, n, i, out, acc);
    } else {
      AllReads(m, n, i + 1, false, acc + [m[i]]);
      PlainReads(m, n, i, out, acc);
    }
  }

  // ---------------------------------------------------------------- a literal closed too early

  /** A quote right after a high byte: only a second one keeps the literal open. */
  lemma QuoteFirst(c: char, rest: string, acc: string)
    ensures var t := CString(rest) + "'";
      Literal(CString([QUOTE] + ([c] + rest)) + "'", acc) ==
      if c == '\0' then None else if c == QUOTE then Literal(t, acc + [QUOTE])
      else if c == '+' then Term(t, acc) else None
  {
    var t := CString(rest) + "'";
    assert ([QUOTE] + ([c] + rest))[1..] == [c] + rest && ([c] + rest)[1..] == rest;
    var u := CString([QUOTE] + ([c] + rest)) + "'";
    if c == '\0' {
      assert u == [QUOTE] + ([QUOTE] + []) && u[2..] == [];
    } else {
      assert u == [QUOTE] + ([c] + t) && u[1..] == [c] + t && u[2..] == t && ([c] + t)[1..] == t;
    }
  }

  /** A quote that is followed by the printed rest. */
  lemma QuoteThen(rest: string, acc: string)
    ensures var t := CString(rest) + "'";
      Literal(CString([QUOTE] + rest) + "'", acc) ==
      if t[0] == QUOTE then Literal(t[1..], acc + [QUOTE]) else After(t, acc)
  {
    var t := CString(rest) + "'";
    assert ([QUOTE] + rest)[1..] == rest;
    var u := CString([QUOTE] + rest) + "'";
    assert u == [QUOTE] + t && u[1..] == t && u[2..] == t[1..];
  }

  /** The text with the open literal shut, as it lies behind a quote too many. */
  lemma PlainText(m: string, n: nat, i: nat)
    requires i < n < |m| && !Group(m, n, i) && !Strange(m, n, i)
    ensures Text(m, n, i, false) == [m[i]] + Text(m, n, i + 1, false) && m[i] != QUOTE && !High(m[i])
    ensures Text(m, n, i, true) == "+'" + Text(m, n, i, false)
  {
    var rest := Printed(m, n, i + 1, false);
    PlainPrinted(m, n, i);
    hide Printed;
    OneCString(m[i], rest);
    CStringCat("+'", [m[i]] + rest);
    Concat([m[i]], CString(rest), "'");
    Concat("+'", CString([m[i]] + rest), "'");
  }

  lemma PlainPrinted(m: string, n: nat, i: nat)
    requires i < n < |m| && !Group(m, n, i) && !Strange(m, n, i)
    ensures var body := [m[i]] + Printed(m, n, i + 1, false);
      Printed(m, n, i, false) == body && Printed(m, n, i, true) == "+'" + body
    ensures m[i] != QUOTE && !High(m[i]) && m[i] != '\0'
  {
    var body := [m[i]] + Printed(m, n, i + 1, false);
    assert "" + body == body;
  }

  lemma OneCString(c: char, rest: string)
    requires c != '\0'
    ensures CString([c] + rest) == [c] + CString(rest)
  {
    assert ([c] + rest)[1..] == rest;
  }

  lemma GroupText(m: string, n: nat, i: nat)
    requires i < n < |m| && Group(m, n, i)
    ensures Text(m, n, i, false)[0] == m[i] && Text(m, n, i, true) == "+'" + Text(m, n, i, false)
  {
    var body := m[i..i + 3] + Printed(m, n, i + 3, false);
    assert "" + body == body && body[0] == m[i];
    CStringCat("+'", body);
  }

  lemma StrangeText(m: string, n: nat, i: nat)
    requires i < n < |m| && Strange(m, n, i)
    ensures var t := "+" + (Word(m[i]) + if i + 1 >= n then "+''" else Text(m, n, i + 1, true));
      Text(m, n, i, true) == t && Text(m, n, i, false) == "'" + t
  {
    hide Word;
    var c := m[i];
    var tail := StrangeTail(m, n, i);
    StrangePrinted(m, n, i);
    TailText(m, n, i);
    hide Printed, Strange;
    WordCString(c, tail);
    CStringCat("+", Word(c) + tail);
    CStringCat("'+", Word(c) + tail);
    Concat("+", Word(c) + CString(tail), "'");
    Concat("'+", Word(c) + CString(tail), "'");
    Concat(Word(c), CString(tail), "'");
    assert "'" + "+" == "'+";
    Concat("'", "+", Word(c) + (CString(tail) + "'"));
  }

  function StrangeTail(m: string, n: nat, i: nat): string
    requires i < n < |m|
  {
    (if i + 1 >= n then "+'" else "") + Printed(m, n, i + 1, true)
  }

  lemma StrangePrinted(m: string, n: nat, i: nat)
    requires i < n < |m| && Strange(m, n, i)
    ensures Printed(m, n, i, true) == "+" + (Word(m[i]) + StrangeTail(m, n, i))
    ensures Printed(m, n, i, false) == "'+" + (Word(m[i]) + StrangeTail(m, n, i))
  {
    hide Word;
  }

  lemma TailText(m: string, n: nat, i: nat)
    requires i < n < |m|
    ensures CString(StrangeTail(m, n, i)) + "'" == if i + 1 >= n then "+''" else Text(m, n, i + 1, true)
  {
    if i + 1 >= n {
      assert StrangeTail(m, n, i) == "+'" + "";
      CStringCat("+'", "");
    } else {
      assert StrangeTail(m, n, i) == Printed(m, n, i + 1, true);
    }
  }

  /** A term's name has no quote in it. */
  lemma WordInside(c: char, t: string, acc: string)
    requires High(c) || Special(c).Some?
    ensures Literal("+" + (Word(c) + t), acc) == Literal(t, acc + "+" + Word(c))
  {
    InsideLiteral("+" + Word(c), t, acc);
    Concat("+", Word(c), t);
    Concat(acc, "+", Word(c));
  }

  lemma {:induction false} InsideLiteral(s: string, t: string, acc: string)
    requires QUOTE !in s
    ensures Literal(s + t, acc) == Literal(t, acc + s)
    decreases |s|
  {
    if s == [] {
      assert s + t == t && acc + s == acc;
    } else {
      ReadPlain(s[0], s[1..] + t, acc);
      InsideLiteral(s[1..], t, acc + [s[0]]);
      assert [s[0]] + (s[1..] + t) == s + t && acc + [s[0]] + s[1..] == acc + s;
    }
  }

  lemma HighUnread(t: string, k: nat, acc: string)
    requires t != [] && High(t[0])
    ensures After(t, acc) == None && Term(t, acc) == None && Number(t, k, acc) == None
  {
    var name := "CHAR(";
    assert name[0] == 'C' && !High('C');
  }

  lemma QuoteUnread(t: string, k: nat, acc: string)
    ensures After("'" + t, acc) == None && Term("'" + t, acc) == Literal(t, acc) && Number("'" + t, k, acc) == None
  {
    assert ("'" + t)[1..] == t;
  }

  /** A character that is no quote leads on to the text behind it. */
  lemma CharUnread(c: char, u: string, k: nat, acc: string)
    requires c != QUOTE && Term(u, acc) == None
    requires c == ')' && k < 256 ==> After(u, acc + [k as char]) == None
    requires '0' <= c <= '9' ==> Number(u, 10 * k + (c as int - '0' as int), acc) == None
    requires var t := [c] + u; |t| > 5 && t[..5] == "CHAR(" ==> Number(t[5..], 0, acc) == None
    ensures After([c] + u, acc) == None && Term([c] + u, acc) == None && Number([c] + u, k, acc) == None
  {
    assert ([c] + u)[1..] == u;
  }

  /** Once the literal is shut where the printer takes it to be open, no way of
      reading the rest succeeds: every quote printed after that opens a literal
      where one should be shut, and the last one is never shut. */
  lemma {:induction false} Unread(m: string, n: nat, i: nat, k: nat, acc: string)
    requires n < |m|
    ensures var t := Text(m, n, i, false);
      After(t, acc) == None && Term(t, acc) == None && Number(t, k, acc) == None
    decreases n - i, 1
  {
    hide After, Term, Number, Literal, Text;
    if i >= n {
      EndText(m, n, i);
      QuoteUnread("", k, acc);
      LiteralEmpty(acc);
      assert "'" + "" == "'";
    } else if Group(m, n, i) {
      GroupText(m, n, i);
      HighUnread(Text(m, n, i, false), k, acc);
    } else if Strange(m, n, i) {
      StrangeText(m, n, i);
      StrangeUnread(m, n, i, acc);
      QuoteUnread(Text(m, n, i, true), k, acc);
    } else {
      PlainUnread(m, n, i, k, acc);
    }
  }

  lemma LiteralEmpty(acc: string)
    ensures Literal("", acc) == None
  {
  }

  lemma {:induction false} PlainUnread(m: string, n: nat, i: nat, k: nat, acc: string)
    requires i < n < |m| && !Group(m, n, i) && !Strange(m, n, i)
    ensures var t := Text(m, n, i, false);
      After(t, acc) == None && Term(t, acc) == None && Number(t, k, acc) == None
    decreases n - i, 0
  {
    hide After, Term, Number, Text;
    var t, u, c := Text(m, n, i, false), Text(m, n, i + 1, false), m[i];
    PlainText(m, n, i);
    Unread(m, n, i + 1, 0, acc);
    if c == ')' && k < 256 {
      Unread(m, n, i + 1, 0, acc + [k as char]);
    } else if '0' <= c <= '9' {
      Unread(m, n, i + 1, 10 * k + (c as int - '0' as int), acc);
    }
    if |t| > 5 && t[..5] == "CHAR(" {
      assert "CHAR(" <= t;
      PlainPrefix(m, n, i, "CHAR(");
      assert t[5..] == Text(m, n, i + 5, false);
      Unread(m, n, i + 5, 0, acc);
    }
    CharUnread(c, u, k, acc);
  }

  /** Behind a CHAR term the same holds for an open literal. */
  lemma {:induction false} OutUnread(m: string, n: nat, i: nat, acc: string)
    requires i < n < |m|
    ensures Literal(Text(m, n, i, true), acc) == None
    decreases n - i, 2
  {
    if Group(m, n, i) || !Strange(m, n, i) {
      var t := Text(m, n, i, false);
      if Group(m, n, i) {
        GroupText(m, n, i);
      } else {
        PlainText(m, n, i);
      }
      ShutQuote(t, acc);
      Unread(m, n, i, 0, acc + "+");
    } else {
      StrangeUnread(m, n, i, acc);
    }
  }

  lemma ShutQuote(t: string, acc: string)
    requires t != [] && t[0] != QUOTE
    ensures Literal("+'" + t, acc) == After(t, acc + "+")
  {
    assert ("+'" + t)[1..] == "'" + t && ("'" + t)[1..] == t;
  }

  lemma {:induction false} StrangeUnread(m: string, n: nat, i: nat, acc: string)
    requires i < n < |m| && Strange(m, n, i)
    ensures Literal(Text(m, n, i, true), acc) == None
    decreases n - i, 0
  {
    hide Text, Literal, Word;
    StrangeText(m, n, i);
    var acc' := acc + "+" + Word(m[i]);
    if i + 1 >= n {
      WordInside(m[i], "+''", acc);
      LastUnread(acc');
    } else {
      WordInside(m[i], Text(m, n, i + 1, true), acc);
      OutUnread(m, n, i + 1, acc');
    }
  }

  lemma LastUnread(acc: string)
    ensures Literal("+''", acc) == None
  {
    assert "+''"[1..] == "''" && "''"[2..] == "";
  }

  /** Printed characters that are neither quotes nor high bytes are the source's own. */
  lemma {:induction false} PlainPrefix(m: string, n: nat, i: nat, p: string)
    requires n < |m| && p <= Text(m, n, i, false)
    requires forall j :: 0 <= j < |p| ==> p[j] != QUOTE && !High(p[j])
    ensures Text(m, n, i, false) == p + Text(m, n, i + |p|, false)
    decreases |p|
  {
    hide Text, High;
    var t := Text(m, n, i, false);
    if p == [] {
      assert p + t == t;
    } else {
      assert p[0] == t[0];
      PlainFirst(m, n, i);
      PlainText(m, n, i);
      var q, u := p[1..], Text(m, n, i + 1, false);
      assert t[1..] == u && q <= u;
      PlainPrefix(m, n, i + 1, q);
      Behind(t, p, u, Text(m, n, i + |p|, false));
    }
  }

  lemma Behind(t: string, p: string, u: string, v: string)
    requires p != [] && t == [p[0]] + u && u == p[1..] + v
    ensures t == p + v
  {
  }

  /** Only a plain character is printed as what is neither quote nor high byte. */
  lemma PlainFirst(m: string, n: nat, i: nat)
    requires n < |m| && Text(m, n, i, false)[0] != QUOTE && !High(Text(m, n, i, false)[0])
    ensures i < n && !Group(m, n, i) && !Strange(m, n, i)
  {
    if i >= n {
      EndText(m, n, i);
    } else if Group(m, n, i) {
      GroupText(m, n, i);
    } else if Strange(m, n, i) {
      StrangeText(m, n, i);
    }
  }

  lemma EndText(m: string, n: nat, i: nat)
    requires n <= i && n < |m|
    ensures Text(m, n, i, false) == "'"
  {
    assert "" + "'" == "'";
  }

  // ---------------------------------------------------------------- exactly when

  /** Two quotes taken for one cannot be made up for: what is read of the rest is
      at most one byte too long, and then it is the rest with the byte behind it. */
  lemma {:induction false} SeenLength(m: string, n: nat, i: nat)
    requires i <= n < |m| && Seen(m, n, i).Some?
    ensures var t := Seen(m, n, i).value;
      |t| <= n - i + 1 && (|t| == n - i + 1 ==> i + 2 <= n && High(m[n - 2]) && t == m[i..n + 1])
    decreases n - i
  {
    if i < n {
      if Group(m, n, i) {
        if i + 2 < n && Seen(m, n, i + 3).Some? {
          SeenLength(m, n, i + 3);
          assert m[i..n + 1] == m[i..i + 3] + m[i + 3..n + 1];
        }
      } else {
        SeenLength(m, n, i + 1);
        assert m[i..n + 1] == [m[i]] + m[i + 1..n + 1];
      }
    }
  }

  lemma {:induction false} AllQuotes(m: string, i: nat, j: nat)
    requires 0 < i <= j < |m| && m[i - 1] == QUOTE && forall k :: i <= k <= j ==> m[k] == m[k - 1]
    ensures m[j] == QUOTE
    decreases j - i
  {
    if i < j {
      assert m[i] == m[i - 1];
      AllQuotes(m, i + 1, j);
    }
  }

  lemma NotShifted(m: string, n: nat, i: nat)
    requires 0 < i <= n < |m| && m[i - 1] == QUOTE
    ensures Seen(m, n, i) != Some([QUOTE] + m[i..n])
  {
    if Seen(m, n, i) == Some([QUOTE] + m[i..n]) {
      SeenLength(m, n, i);
      var t := m[i..n + 1];
      assert t == [QUOTE] + m[i..n];
      forall k | i <= k <= n ensures m[k] == m[k - 1] {
        assert t[k - i] == m[k];
        assert k > i ==> ([QUOTE] + m[i..n])[k - i] == m[k - 1];
      }
      AllQuotes(m, i, n - 2 + if n - 2 < i then i - n + 2 else 0);
      assert false;
    }
  }

  /** All of the source is seen exactly when the groups are whole. */
  lemma {:induction false} SeenAll(m: string, n: nat, i: nat)
    requires i <= n < |m|
    ensures Seen(m, n, i) == Some(m[i..n]) <==> GroupsWhole(m, n, i)
    decreases n - i
  {
    hide Seen, GroupsWhole;
    if i >= n {
      SeenNone(m, n, i);
    } else if Group(m, n, i) {
      if i + 2 < n {
        SeenAll(m, n, i + 3);
        SeenGroup(m, n, i);
      } else {
        SeenLast(m, n, i);
      }
    } else {
      SeenAll(m, n, i + 1);
      SeenOne(m, n, i);
    }
  }

  lemma SeenNone(m: string, n: nat, i: nat)
    requires i == n < |m|
    ensures Seen(m, n, i) == Some(m[i..n]) && GroupsWhole(m, n, i)
  {
    assert m[i..n] == "";
  }

  lemma SeenOne(m: string, n: nat, i: nat)
    requires i < n < |m| && !Group(m, n, i) && (Seen(m, n, i + 1) == Some(m[i + 1..n]) <==> GroupsWhole(m, n, i + 1))
    ensures Seen(m, n, i) == Some(m[i..n]) <==> GroupsWhole(m, n, i)
  {
    assert m[i..n] == [m[i]] + m[i + 1..n];
    if Seen(m, n, i + 1).Some? {
      SamePrefix([m[i]], Seen(m, n, i + 1).value, m[i + 1..n]);
    }
  }

  /** A group with more of the source behind it. */
  lemma SeenGroup(m: string, n: nat, i: nat)
    requires i + 2 < n < |m| && Group(m, n, i)
    requires Seen(m, n, i + 3) == Some(m[i + 3..n]) <==> GroupsWhole(m, n, i + 3)
    ensures Seen(m, n, i) == Some(m[i..n]) <==> GroupsWhole(m, n, i)
  {
    assert m[i..n] == m[i..i + 3] + m[i + 3..n];
    if Seen(m, n, i + 3).Some? {
      var rest := Seen(m, n, i + 3).value;
      SamePrefix(m[i..i + 3], rest, m[i + 3..n]);
      if m[i + 1] == m[i + 2] == QUOTE {
        NotShifted(m, n, i + 3);
        assert m[i..n] == [m[i], QUOTE] + ([QUOTE] + m[i + 3..n]);
        SamePrefix([m[i], QUOTE], rest, [QUOTE] + m[i + 3..n]);
      }
    }
  }

  /** A group whose third byte lies behind the source. */
  lemma SeenLast(m: string, n: nat, i: nat)
    requires i + 2 == n < |m| && Group(m, n, i)
    ensures Seen(m, n, i) == Some(m[i..n]) <==> GroupsWhole(m, n, i)
  {
    assert m[i..n] == [m[i], m[i + 1]] && |m[i..i + 3]| == 3;
    assert Seen(m, n, i + 3) == Some("") && [m[i], QUOTE] + "" == [m[i], QUOTE];
  }

  lemma SamePrefix(a: string, b: string, c: string)
    ensures a + b == a + c <==> b == c
  {
    assert (a + b)[|a|..] == b && (a + c)[|a|..] == c;
  }

  /** The quoted form of the source. */
  function Quoted(m: string, n: nat): string
    requires n < |m|
  {
    "'" + Text(m, n, 0, false)
  }

  /** For every source: put between quotes, what escapeStr prints is an expression
      that denotes the source, exactly when its groups are whole. */
  lemma EscapeMeans(m: string, n: nat)
    requires Bytes(m) && n < |m|
    ensures Denotes(Quoted(m, n)) == Some(m[..n]) <==> GroupsWhole(m, n, 0)
  {
    AllReads(m, n, 0, false, []);
    SeenAll(m, n, 0);
    assert m[0..n] == m[..n];
    if Seen(m, n, 0).Some? {
      assert [] + Seen(m, n, 0).value == Seen(m, n, 0).value;
    }
    var t := Text(m, n, 0, false);
    assert ("'" + t)[1..] == t;
  }

  /** A single quote in a group behind whole ones makes the printed text no
      expression at all, whatever follows. */
  lemma QuoteBreaks(m: string, n: nat, i: nat)
    requires Bytes(m) && i < n < |m| && (m[i] as int) >= 0x80 && i + 1 < n && WholeUpTo(m, n, 0, i)
    requires m[i + 1] != '\0' && (m[i + 1] == QUOTE) != (m[i + 2] == QUOTE)
    ensures Denotes(Quoted(m, n)) == None
  {
    BrokenLater(m, n, 0, i);
    AllReads(m, n, 0, false, []);
    var t := Text(m, n, 0, false);
    assert ("'" + t)[1..] == t;
  }

  // ---------------------------------------------------------------- the buffer

  /** strcat at the end of the text in dest: the characters and a terminator. */
  method Append(dest: array<char>, d: nat, s: string) returns (d': nat)
    requires d + |s| < dest.Length
    modifies dest
    ensures d' == d + |s| && dest[..d'] == old(dest[..d]) + s && dest[d'] == '\0'
  {
    forall k | 0 <= k < |s| {
      dest[d + k] := s[k];
    }
    d' := d + |s|;
    dest[d'] := '\0';
    assert dest[..d] == old(dest[..d]) && dest[d..d'] == s;
    assert dest[..d'] == dest[..d] + dest[d..d'];
  }

  method StrLen(src: array<char>) returns (n: nat)
    requires exists i :: 0 <= i < src.Length && src[i] == '\0'
    ensures n < src.Length && src[n] == '\0' && forall i :: 0 <= i < n ==> src[i] != '\0'
  {
    n := 0;
    while src[n] != '\0'
      invariant n < src.Length && forall i :: 0 <= i < n ==> src[i] != '\0'
      decreases src.Length - n
    {
      n := n + 1;
    }
  }

  /** What one turn of the loop writes. */
  function Piece(m: string, n: nat, i: nat, out: bool): (s: string)
    requires i < n < |m|
  {
    if Group(m, n, i) then (if out then "+'" else "") + m[i..i + 3]
    else if Strange(m, n, i) then (if out then "+" else "'+") + Word(m[i]) + (if i + 1 >= n then "+'" else "")
    else (if out then "+'" else "") + [m[i]]
  }

  function NextOf(m: string, n: nat, i: nat): nat
    requires i < n < |m|
  {
    if Group(m, n, i) then i + 3 else i + 1
  }

  predicate OutAfter(m: string, n: nat, i: nat)
    requires i < n < |m|
  {
    !Group(m, n, i) && Strange(m, n, i)
  }

  lemma PrintedPiece(m: string, n: nat, i: nat, out: bool)
    requires i < n < |m|
    ensures Printed(m, n, i, out) == Piece(m, n, i, out) + Printed(m, n, NextOf(m, n, i), OutAfter(m, n, i))
  {
    hide Word, High, Special;
    var open := if out then "+'" else "";
    if Group(m, n, i) {
      Concat(open, m[i..i + 3], Printed(m, n, i + 3, false));
    } else if Strange(m, n, i) {
      var head, last := if out then "+" else "'+", if i + 1 >= n then "+'" else "";
      Concat(Word(m[i]), last, Printed(m, n, i + 1, true));
      Concat(head, Word(m[i]) + last, Printed(m, n, i + 1, true));
      Concat(head, Word(m[i]), last);
    } else {
      Concat(open, [m[i]], Printed(m, n, i + 1, false));
    }
  }

  /** A turn writes at most 13 characters, and 12 for each one read in the long run. */
  lemma PieceSize(m: string, n: nat, i: nat, out: bool)
    requires i < n < |m|
    ensures i < NextOf(m, n, i) && (NextOf(m, n, i) <= n || NextOf(m, n, i) == n + 1)
    ensures |Piece(m, n, i, out)| <= if i + 1 < n then 10 else 13
    ensures |Piece(m, n, i, out)| + (if OutAfter(m, n, i) then 2 else 0) <=
            12 * (NextOf(m, n, i) - i) + (if out then 2 else 0) + (if i + 1 < n then 0 else 3)
  {
  }

  lemma PrintedEnd(m: string, n: nat, i: nat, out: bool)
    requires n <= i && n < |m|
    ensures Printed(m, n, i, out) == ""
  {
  }

  lemma Concat(a: string, b: string, c: string)
    ensures a + (b + c) == (a + b) + c
  {
  }

  /** The body of the loop. */
  method WritePiece(src: array<char>, dest: array<char>, n: nat, i: nat, d: nat, out: bool)
    returns (i': nat, d': nat, out': bool)
    requires src != dest && i < n < src.Length && d + 13 < dest.Length
    modifies dest
    ensures out' == OutAfter(src[..], n, i) && i' == NextOf(src[..], n, i)
    ensures d' == d + |Piece(src[..], n, i, out)| < dest.Length && dest[d'] == '\0'
    ensures dest[..d'] == old(dest[..d]) + Piece(src[..], n, i, out)
  {
    ghost var m, text := src[..], dest[..d];
    PieceSize(m, n, i, out);
    if src[i] as int >= 0x80 && i < n - 1 {
      assert m[i..i + 3] == [m[i], m[i + 1], m[i + 2]];
      d' := Reopened(dest, d, out, [src[i], src[i + 1], src[i + 2]]);
      i', out' := i + 3, false;
    } else if High(src[i]) || Special(src[i]).Some? {
      d' := Append(dest, d, if out then "+" else "'+");
      d' := Append(dest, d', Word(src[i]));
      Concat(text, if out then "+" else "'+", Word(m[i]));
      ghost var first := dest[..d'];
      if i + 1 >= n {
        d' := Append(dest, d', "+'");
        Concat(text, (if out then "+" else "'+") + Word(m[i]), "+'");
      }
      i', out' := i + 1, true;
    } else {
      d' := Reopened(dest, d, out, [src[i]]);
      i', out' := i + 1, false;
    }
  }

  method Reopened(dest: array<char>, d: nat, out: bool, s: string) returns (d': nat)
    requires d + 2 + |s| < dest.Length
    modifies dest
    ensures var t := (if out then "+'" else "") + s;
      d' == d + |t| && dest[..d'] == old(dest[..d]) + t && dest[d'] == '\0'
  {
    d' := d;
    if out {
      Concat(dest[..d], "+'", s);
      d' := Append(dest, d, "+'");
    }
    d' := Append(dest, d', s);
  }

  /** escapeStr. The source may read one byte past srcSize; the buffer its callers
      allocate, 12 times the size and 128 more, is never exceeded. */
  method EscapeStr(src: array<char>, dest: array<char>, srcSize: nat) returns (n: nat, d: nat)
    requires src != dest && Bytes(src[..])
    requires srcSize < src.Length && (srcSize == 0 ==> exists i :: 0 <= i < src.Length && src[i] == '\0')
    requires dest.Length >= 12 * (if srcSize == 0 then src.Length else srcSize) + 128
    modifies dest
    ensures n < src.Length && (if srcSize > 0 then n == srcSize else src[n] == '\0' && '\0' !in src[..n])
    ensures d < dest.Length && d <= 12 * n + 3 && dest[..d] == Printed(src[..], n, 0, false)
    ensures "'" + (CString(dest[..]) + "'") == Quoted(src[..], n)
  {
    hide Printed, Piece, NextOf, OutAfter, Strange, Group;
    n, d := srcSize, 0;
    if n == 0 {
      n := StrLen(src);
    }
    dest[0] := '\0';
    var i, out := 0, false;
    ghost var m := src[..];
    ghost var whole := Printed(m, n, 0, false);
    assert [] + whole == whole && dest[..0] == [];
    while i < n
      invariant i < n ==> d + (if out then 2 else 0) <= 12 * i
      invariant d <= 12 * n + 3 && dest[d] == '\0'
      invariant dest[..d] + Printed(m, n, i, out) == whole
      decreases n - i
    {
      PieceSize(m, n, i, out);
      PrintedPiece(m, n, i, out);
      Concat(dest[..d], Piece(m, n, i, out), Printed(m, n, NextOf(m, n, i), OutAfter(m, n, i)));
      i, d, out := WritePiece(src, dest, n, i, d, out);
    }
    PrintedEnd(m, n, i, out);
    assert dest[..d] + "" == dest[..d];
    assert dest[..] == dest[..d] + ['\0'] + dest[d + 1..];
    CStringEnds(dest[..d], dest[d + 1..]);
  }

  lemma {:induction false} CStringEnds(a: string, b: string)
    ensures CString(a + ['\0'] + b) == CString(a)
    decreases |a|
  {
    if a != [] {
      assert (a + ['\0'] + b)[1..] == a[1..] + ['\0'] + b;
      CStringEnds(a[1..], b);
    }
  }
}
