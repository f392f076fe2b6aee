/**
  CEasyStrParse: splits a text at delimiters, outside of quotes, inside the
  text's own buffer and no further than asked. The reference is a function on
  values that knows of no buffer and no laziness.
 */
module EasyStrParse {
  import opened Define

  /** The delimiters, the pairs of opening and closing quotes, the escape
      character and whether empty tokens are kept. */
  datatype Config = Config(delims: string, pairs: string, zy: char, keepNil: bool)

  ghost predicate NoNul(s: string) {
    forall i :: 0 <= i < |s| ==> s[i] != '\0'
  }

  // ---------------------------------------------------------------- the reference

  /** The place of the quote that closes what c opens, or -1. */
  function Opens(pairs: string, c: char): (q: int)
    ensures -1 <= q < |pairs| && (q >= 0 ==> q % 2 == 1 && pairs[q - 1] == c)
    ensures q == -1 ==> forall j :: 0 <= j && 2 * j + 1 < |pairs| ==> pairs[2 * j] != c
  {
    OpensFrom(pairs, c, 0)
  }

  function OpensFrom(pairs: string, c: char, j: nat): (q: int)
    ensures -1 <= q < |pairs| && (q >= 0 ==> q % 2 == 1 && pairs[q - 1] == c)
    ensures q == -1 ==> forall i :: j <= i && 2 * i + 1 < |pairs| ==> pairs[2 * i] != c
    decreases |pairs| - j
  {
    if 2 * j + 1 >= |pairs| then -1
    else if pairs[2 * j] == c then 2 * j + 1
    else OpensFrom(pairs, c, j + 1)
  }

  /** The quote in force after c, q being the one before. */
  function Quote(cfg: Config, q: int, c: char): (q': int)
    requires q < |cfg.pairs|
    ensures q' < |cfg.pairs|
  {
    if q < 0 then Opens(cfg.pairs, c) else if c == cfg.pairs[q] then -1 else q
  }

  /** c ends a token: a delimiter not inside quotes; a quote counts as outside. */
  predicate Ends(cfg: Config, q: int, c: char)
    requires q < |cfg.pairs|
  {
    (q < 0 || Quote(cfg, q, c) < 0) && c in cfg.delims
  }

  /** An escape character in front of the closing quote. */
  predicate Escaped(cfg: Config, q: int, s: string)
    requires q < |cfg.pairs|
  {
    q >= 0 && |s| >= 2 && s[0] == cfg.zy && s[1] == cfg.pairs[q]
  }

  /** The tokens of the text s, `cur` having been read of the first one. */
  ghost function Tokens(cfg: Config, s: string, q: int, cur: string): seq<string>
    requires q < |cfg.pairs|
    decreases |s|
  {
    if s == [] then (if cur == [] then [] else [cur])
    else if Escaped(cfg, q, s) then Tokens(cfg, s[2..], q, cur + [s[1]])
    else if Ends(cfg, q, s[0]) then
      (if cfg.keepNil || cur != [] then [cur] else []) + Tokens(cfg, s[1..], Quote(cfg, q, s[0]), [])
    else Tokens(cfg, s[1..], Quote(cfg, q, s[0]), cur + [s[0]])
  }

  /** Without delimiters the text is one token, and taken as it is. */
  ghost function Split(cfg: Config, s: string): seq<string> {
    if cfg.delims == [] then (if s == [] then [] else [s]) else Tokens(cfg, s, -1, [])
  }

  // ---------------------------------------------------------------- the buffer

  /** Token t stands at p, with its terminator before lim. */
  ghost predicate TokenAt(b: string, p: nat, t: string, lim: nat) {
    p + |t| < lim <= |b| && b[p..p + |t|] == t && b[p + |t|] == '\0' && NoNul(t)
  }

  ghost predicate TokensAt(b: string, params: seq<nat>, full: seq<string>, lim: nat) {
    |params| <= |full| && forall i :: 0 <= i < |params| ==> TokenAt(b, params[i], full[i], lim)
  }

  /** In the middle of the loop: the tokens found so far lie before `last`, the
      current one between last and w, the text still to read from r to end. */
  ghost predicate Parsing(cfg: Config, full: seq<string>, b: string, params: seq<nat>,
                          last: nat, w: nat, r: nat, q: int, end: nat) {
    && last <= w <= r <= end < |b| && b[end] == '\0' && NoNul(b[last..w]) && NoNul(b[r..end])
    && q < |cfg.pairs| && |params| <= |full| && TokensAt(b, params, full, last)
    && full[|params|..] == Tokens(cfg, b[r..end], q, b[last..w])
  }

  lemma TokensKept(b: string, b': string, params: seq<nat>, full: seq<string>, lim: nat, lim': nat)
    requires TokensAt(b, params, full, lim) && |b'| == |b| && lim <= lim' <= |b|
    requires forall i :: 0 <= i < lim <= |b| ==> b'[i] == b[i]
    ensures TokensAt(b', params, full, lim')
  {
    forall i | 0 <= i < |params| ensures TokenAt(b', params[i], full[i], lim') {
      var p, t := params[i], full[i];
      assert b'[p..p + |t|] == b[p..p + |t|];
    }
  }

  /** An escaped quote: the escape character is dropped. */
  lemma StepEscape(cfg: Config, full: seq<string>, b: string, params: seq<nat>,
                   last: nat, w: nat, r: nat, q: int, end: nat)
    requires Parsing(cfg, full, b, params, last, w, r, q, end) && Escaped(cfg, q, b[r..end])
    ensures Parsing(cfg, full, b[w := b[r + 1]], params, last, w + 1, r + 2, q, end)
  {
    var b' := b[w := b[r + 1]];
    TokensKept(b, b', params, full, last, last);
    assert b[r..end][2..] == b'[r + 2..end];
    assert b'[last..w + 1] == b[last..w] + [b[r..end][1]];
  }

  lemma StepCopy(cfg: Config, full: seq<string>, b: string, params: seq<nat>,
                 last: nat, w: nat, r: nat, q: int, end: nat)
    requires Parsing(cfg, full, b, params, last, w, r, q, end) && r < end
    requires !Escaped(cfg, q, b[r..end]) && !Ends(cfg, q, b[r])
    ensures Parsing(cfg, full, b[w := b[r]], params, last, w + 1, r + 1, Quote(cfg, q, b[r]), end)
  {
    var b' := b[w := b[r]];
    TokensKept(b, b', params, full, last, last);
    assert b[r..end][1..] == b'[r + 1..end];
    assert b'[last..w + 1] == b[last..w] + [b[r]];
  }

  lemma StepDelim(cfg: Config, full: seq<string>, b: string, params: seq<nat>,
                  last: nat, w: nat, r: nat, q: int, end: nat)
    requires Parsing(cfg, full, b, params, last, w, r, q, end) && r < end
    requires !Escaped(cfg, q, b[r..end]) && Ends(cfg, q, b[r])
    ensures var b' := b[w := '\0'][r := '\0'];
      && (b'[last] != '\0' <==> last < w)
      && Parsing(cfg, full, b', if cfg.keepNil || last < w then params + [last] else params,
                 w + 1, w + 1, r + 1, Quote(cfg, q, b[r]), end)
  {
    hide TokensAt;
    var b', cur := b[w := '\0'][r := '\0'], b[last..w];
    var rest := Tokens(cfg, b'[r + 1..end], Quote(cfg, q, b[r]), []);
    CutToken(b, last, w, r, end);
    assert full[|params|..] == (if cfg.keepNil || cur != [] then [cur] else []) + rest;
    hide Tokens, Ends, Escaped, Quote;
    if cfg.keepNil || last < w {
      FirstOf(full, |params|, cur, rest);
      TokensMore(b, b', params, full, last, w + 1);
    } else {
      TokensKept(b, b', params, full, last, w + 1);
    }
  }

  lemma CutToken(b: string, last: nat, w: nat, r: nat, end: nat)
    requires last <= w <= r < end < |b| && NoNul(b[last..w]) && NoNul(b[r..end])
    ensures var b' := b[w := '\0'][r := '\0'];
      && (b'[last] != '\0' <==> last < w) && (last < w <==> b[last..w] != [])
      && b[r..end][1..] == b'[r + 1..end] && b'[w + 1..w + 1] == [] && NoNul(b'[r + 1..end])
      && TokenAt(b', last, b[last..w], w + 1)
  {
    assert last < w ==> b[last..w][0] == b[last];
    assert b[w := '\0'][r := '\0'][last..w] == b[last..w];
  }

  lemma FirstOf(full: seq<string>, n: nat, t: string, rest: seq<string>)
    requires n <= |full| && full[n..] == [t] + rest
    ensures n < |full| && full[n] == t && full[n + 1..] == rest
  {
    assert full[n..][0] == t && full[n..][1..] == rest;
  }

  lemma TokensMore(b: string, b': string, params: seq<nat>, full: seq<string>, last: nat, lim: nat)
    requires TokensAt(b, params, full, last) && |b'| == |b| && last <= lim <= |b|
    requires forall i :: 0 <= i < last <= |b| ==> b'[i] == b[i]
    requires |params| < |full| && TokenAt(b', last, full[|params|], lim)
    ensures TokensAt(b', params + [last], full, lim)
  {
    TokensKept(b, b', params, full, last, lim);
  }

  /** At the end of the text only the current token is left. */
  lemma StepEnd(cfg: Config, full: seq<string>, b: string, params: seq<nat>,
                last: nat, w: nat, q: int, end: nat)
    requires Parsing(cfg, full, b, params, last, w, end, q, end)
    ensures var b' := b[w := '\0'];
      var params' := if last < w then params + [last] else params;
      (b'[last] != '\0' <==> last < w) && TokensAt(b', params', full, |b|) && |params'| == |full| && b'[end] == '\0'
  {
    var b', cur := b[w := '\0'], b[last..w];
    assert b[end..end] == [];
    assert b'[last..w] == cur && (last < w ==> cur[0] == b[last]);
    if cur != [] {
      assert full[|params|..] == [cur] + [];
      FirstOf(full, |params|, cur, []);
      assert TokenAt(b', last, cur, |b|);
      TokensMore(b, b', params, full, last, |b|);
    } else {
      assert full[|params|..] == [];
      TokensKept(b, b', params, full, last, |b|);
    }
  }

  /** A pause in the text starts with an empty current token and no quote. */
  lemma Pause(cfg: Config, full: seq<string>, b: string, params: seq<nat>, w: nat, r: nat, q: int, end: nat)
    requires Parsing(cfg, full, b, params, w, w, r, q, end) && (q < 0 || r == end)
    ensures Parsing(cfg, full, b, params, r, r, r, -1, end)
  {
    TokensKept(b, b, params, full, w, r);
    assert b[w..w] == [] && b[r..r] == [];
    assert r == end ==> b[r..end] == [];
    TokensNoQuote(cfg, b[r..end], q, []);
  }

  /** Where a text is used up, every token is known. */
  lemma AtEnd(cfg: Config, full: seq<string>, b: string, params: seq<nat>, r: nat, end: nat)
    requires Parsing(cfg, full, b, params, r, r, r, -1, end)
    ensures TokensAt(b, params, full, |b|) && (b[r] == '\0' ==> r == end && |params| == |full|)
  {
    assert r < end ==> b[r..end][0] != '\0';
    TokensKept(b, b, params, full, r, |b|);
  }

  /** Which value stands for "no quote" makes no difference. */
  lemma TokensNoQuote(cfg: Config, s: string, q: int, cur: string)
    requires q < 0 || (s == [] && q < |cfg.pairs|)
    ensures Tokens(cfg, s, q, cur) == Tokens(cfg, s, -1, cur)
  {
  }

  // ---------------------------------------------------------------- the parser

  /** A char*: null, the static empty text, or a place in the buffer. */
  datatype Pointer = Null | Empty | At(pos: nat)

  /** The text from p up to the first NUL. */
  ghost function CStr(b: string, p: nat): (s: string)
    decreases |b| - p
  {
    if p >= |b| || b[p] == '\0' then [] else [b[p]] + CStr(b, p + 1)
  }

  lemma {:induction false} CStrIs(b: string, p: nat, t: string)
    requires p + |t| < |b| && b[p..p + |t|] == t && NoNul(t) && b[p + |t|] == '\0'
    ensures CStr(b, p) == t
    decreases |t|
  {
    if t != [] {
      assert b[p] == t[0] && b[p + 1..p + 1 + |t[1..]|] == t[1..];
      CStrIs(b, p + 1, t[1..]);
    }
  }

  class CEasyStrParse {
    var buf: array<char>
    var params: seq<nat>     // m_pszParams, as places in buf
    var start: Pointer       // m_pStart
    var srcStart: Pointer    // m_pSrcStart
    var cfg: Config          // m_pch, m_pBAch, m_zychr, m_bokeepnil
    ghost var full: seq<string>
    ghost var end: nat       // the place of the terminator

    ghost predicate Valid()
      reads this, buf
    {
      && TokensAt(buf[..], params, full, buf.Length)
      && (start.At? && buf.Length > start.pos && buf[start.pos] != '\0' ==>
            if cfg.delims == [] then params == [] && WholeAt(start.pos)
            else Parsing(cfg, full, buf[..], params, start.pos, start.pos, start.pos, -1, end))
      && (start.At? ==> start.pos < buf.Length)
      && (!start.At? || buf[start.pos] == '\0' ==> |params| == |full|)
    }

    ghost predicate WholeAt(p: nat)
      reads this, buf
    {
      p < end < buf.Length && buf[end] == '\0' && NoNul(buf[p..end]) && full == [buf[p..end]]
    }

    /** The text a returned pointer shows. */
    ghost function Text(p: Pointer): string
      reads this, buf
    {
      if p.At? then CStr(buf[..], p.pos) else []
    }

    constructor ()
      ensures Valid() && full == []
    {
      buf := new char[0](_ => '\0');
      params, start, srcStart, full, end := [], Null, Null, [], 0;
      cfg := Config([], [], '\0', false);
    }

    /** SetParseStr with SetBAch and SetCh; a null text is None, null delimiters
        or quotes are the empty text. A text has its terminator in the buffer. */
    method SetParseStr(psz: array?<char>, ch: string, bach: string, zychr: char, keepnil: bool) returns (ok: bool)
      requires psz != null ==> exists i :: 0 <= i < psz.Length && psz[i] == '\0'
      modifies this
      ensures Valid() && ok == (|bach| % 2 == 0 && psz != null)
      ensures ok ==> full == Split(Config(ch, bach, zychr, keepnil), old(CStr(psz[..], 0))) && srcStart == At(0)
      ensures !ok ==> full == [] && srcStart == Null
    {
      params, start, srcStart, full := [], Null, Null, [];
      if |bach| % 2 != 0 {
        return false;
      }
      if psz == null {
        return false;
      }
      cfg := Config(ch, bach, zychr, keepnil);
      srcStart, start := At(0), At(0);
      buf := psz;
      end := FirstNul(psz);
      CStrIs(buf[..], 0, buf[..end]);
      full := Split(cfg, buf[..end]);
      return true;
    }

    /** The loop over the pairs: which quote c opens. */
    method FindOpening(c: char) returns (q: int)
      ensures q == Opens(cfg.pairs, c)
    {
      var idx := 0;
      while idx + 1 < |cfg.pairs|
        invariant idx % 2 == 0 && Opens(cfg.pairs, c) == OpensFrom(cfg.pairs, c, idx / 2)
      {
        if c == cfg.pairs[idx] {
          return idx + 1;
        }
        idx := idx + 2;
      }
      return -1;
    }

    /** The loop over the delimiters. */
    method IsDelimiter(c: char) returns (found: bool)
      ensures found <==> c in cfg.delims
    {
      var idx := 0;
      while idx < |cfg.delims|
        invariant idx <= |cfg.delims| && c !in cfg.delims[..idx]
      {
        if c == cfg.delims[idx] {
          return true;
        }
        idx := idx + 1;
      }
      assert cfg.delims[..idx] == cfg.delims;
      return false;
    }

    /** The switch on the quote state: what the character at r does to the quote.
        q is b_a_idx; the source's curch_state is 1 exactly while it is not -1. */
    method Switch(r: nat, q: int) returns (q': int, first: bool, escaped: bool)
      requires r < end < buf.Length && buf[end] == '\0' && NoNul(buf[r..end]) && -1 <= q < |cfg.pairs|
      ensures -1 <= q' < |cfg.pairs| && escaped == Escaped(cfg, q, buf[r..end])
      ensures escaped ==> q' == q && r + 1 < end
      ensures !escaped ==> q' == Quote(cfg, q, buf[r]) && (first || q' < 0 <==> q < 0 || q' < 0)
    {
      q', first, escaped := q, false, false;
      if q < 0 {
        q' := FindOpening(buf[r]);
        first := q' >= 0;
      } else if buf[r] == cfg.zy && buf[r + 1] != '\0' && buf[r + 1] == cfg.pairs[q] {
        escaped := true;
      } else if buf[r] == cfg.pairs[q] {
        q' := -1;
      }
    }

    /** Parses until nCount tokens are known, or all of them. */
    method ParseParam(nCount: int)
      requires Valid()
      modifies this`params, this`start, buf
      ensures Valid() && old(params) <= params
      ensures nCount > 0 ==> |params| >= nCount || |params| == |full|
    {
      if start.At? && buf[start.pos] != '\0' && nCount > 0 {
        if cfg.delims == [] {
          if |params| == 0 {
            params := params + [start.pos];
            start := Empty;
          }
          return;
        }
        if nCount <= |params| {
          return;
        }
        ParseText(nCount);
      }
    }

    method ParseText(nCount: int)
      requires start.At? && start.pos < buf.Length && nCount > 0 && cfg.delims != []
      requires Parsing(cfg, full, buf[..], params, start.pos, start.pos, start.pos, -1, end)
      modifies this`params, this`start, buf
      ensures Valid() && old(params) <= params
      ensures |params| >= nCount || |params| == |full|
    {
      hide Tokens, TokensAt, Quote, Escaped;
      var q := -1;
      var r: nat, w: nat, last: nat := start.pos, start.pos, start.pos;
      while buf[r] != '\0'
        invariant Parsing(cfg, full, buf[..], params, last, w, r, q, end) && -1 <= q
        invariant old(params) <= params
        decreases end - r
      {
        var stop;
        last, r, q, stop := ParseChar(nCount, last, w, r, q);
        if stop {
          return;
        }
        w := w + 1;
      }
      EndText(last, w, r, q);
    }

    /** The body of the loop. */
    method ParseChar(nCount: int, last0: nat, w: nat, r0: nat, q0: int) returns (last: nat, r: nat, q: int, stop: bool)
      requires cfg.delims != [] && -1 <= q0
      requires Parsing(cfg, full, buf[..], params, last0, w, r0, q0, end) && r0 < end
      modifies this`params, this`start, buf
      ensures old(params) <= params && -1 <= q
      ensures !stop ==> r0 < r && Parsing(cfg, full, buf[..], params, last, w + 1, r, q, end)
      ensures stop ==> Valid() && (|params| >= nCount || |params| == |full|)
    {
      hide Tokens, TokensAt, Quote, Escaped;
      var first, escaped;
      last, r, stop := last0, r0, false;
      q, first, escaped := Switch(r, q0);
      if escaped {
        StepEscape(cfg, full, buf[..], params, last, w, r, q, end);
        r := r + 1;
      }
      var found := false;
      if !escaped && (first || q < 0) {
        found := IsDelimiter(buf[r]);
      }
      if found {
        last, stop := EndToken(nCount, last, w, r, q, q0);
        if stop {
          return;
        }
        assert buf[..][w := '\0'] == buf[..];
      } else if !escaped {
        StepCopy(cfg, full, buf[..], params, last, w, r, q0, end);
      }
      buf[w] := buf[r];
      r := r + 1;
    }

    /** A delimiter at r: the current token is closed and kept unless it is empty
        and empty ones are dropped; `stop` says that enough is known. */
    method EndToken(nCount: int, last: nat, w: nat, r: nat, q: int, ghost q0: int) returns (last': nat, stop: bool)
      requires Parsing(cfg, full, buf[..], params, last, w, r, q0, end) && r < end && -1 <= q
      requires cfg.delims != [] && !Escaped(cfg, q0, buf[r..end]) && Ends(cfg, q0, buf[r]) && q == Quote(cfg, q0, buf[r])
      modifies this`params, this`start, buf
      ensures old(params) <= params && buf[r] == '\0' && last' == w + 1
      ensures !stop ==> buf[w] == '\0' && Parsing(cfg, full, buf[..], params, w + 1, w + 1, r + 1, q, end)
      ensures stop ==> Valid() && (|params| >= nCount || |params| == |full|)
    {
      hide Tokens, TokensAt, Quote, Escaped, Ends;
      stop, last' := false, w + 1;
      StepDelim(cfg, full, buf[..], params, last, w, r, q0, end);
      buf[w] := '\0';
      buf[r] := '\0';
      if cfg.keepNil || buf[last] != '\0' {
        params := params + [last];
        if |params| >= nCount && q < 0 {
          stop := true;
        } else if buf[r + 1] == '\0' {
          stop := true;
        }
      }
      if stop {
        PauseAt(r + 1, w + 1, q);
      }
    }

    /** m_pStart = p */
    method PauseAt(p: nat, ghost w: nat, ghost q: int)
      requires cfg.delims != [] && Parsing(cfg, full, buf[..], params, w, w, p, q, end)
      requires q < 0 || buf[p] == '\0'
      modifies this`start
      ensures Valid() && (buf[p] == '\0' ==> |params| == |full|)
    {
      hide Tokens, TokensAt;
      assert p < end ==> buf[p..end][0] != '\0';
      Pause(cfg, full, buf[..], params, w, p, q, end);
      AtEnd(cfg, full, buf[..], params, p, end);
      start := At(p);
    }

    method EndText(last: nat, w: nat, r: nat, q: int)
      requires Parsing(cfg, full, buf[..], params, last, w, r, q, end) && buf[r] == '\0'
      modifies this`params, this`start, buf
      ensures Valid() && old(params) <= params && |params| == |full|
    {
      hide Tokens, TokensAt, Quote, Escaped, Ends;
      StepEnd(cfg, full, buf[..], params, last, w, q, end);
      buf[w] := buf[r];
      if buf[last] != '\0' {
        params := params + [last];
      }
      start := At(r);
    }

    /** operator[]: token i of the text, whatever was asked before. The index is an
        int; the largest one wraps around. */
    method Param(i: int) returns (p: Pointer)
      requires Valid() && -0x8000_0000 <= i < 0x8000_0000
      modifies this`params, this`start, buf
      ensures Valid() && old(params) <= params
      ensures i < 0 || i == 0x7fff_ffff ==> p == srcStart && buf[..] == old(buf[..]) && params == old(params)
      ensures 0 <= i < |full| && i < 0x7fff_ffff ==> i < |params| && p == At(params[i]) && Text(p) == full[i]
      ensures |full| <= i < 0x7fff_ffff ==> p == Empty && |params| == |full|
    {
      var n := Int32(i + 1);
      if n < 1 {
        return srcStart;
      }
      p := Null;
      if n > |params| {
        ParseParam(n);
      }
      if n <= |params| {
        p := At(params[n - 1]);
        CStrIs(buf[..], params[n - 1], full[n - 1]);
      }
      if p == Null {
        p := Empty;
      }
    }

    method ParamCount() returns (n: int)
      requires Valid() && |full| < 0x7fff_fff0
      modifies this`params, this`start, buf
      ensures Valid() && old(params) <= params && n == |full|
    {
      var p := Param(0x7fff_fff0);
      return |params|;
    }
  }

  ghost function FirstNul(a: array<char>): (k: nat)
    reads a
    requires exists i :: 0 <= i < a.Length && a[i] == '\0'
    ensures k < a.Length && a[k] == '\0' && NoNul(a[..k])
  {
    FirstNulFrom(a, 0)
  }

  ghost function FirstNulFrom(a: array<char>, n: nat): (k: nat)
    reads a
    requires n <= a.Length && NoNul(a[..n]) && exists i :: 0 <= i < a.Length && a[i] == '\0'
    ensures k < a.Length && a[k] == '\0' && NoNul(a[..k])
    decreases a.Length - n
  {
    assert n == a.Length ==> forall i :: 0 <= i < a.Length ==> a[i] == a[..n][i] != '\0';
    if a[n] == '\0' then n else assert NoNul(a[..n + 1]); FirstNulFrom(a, n + 1)
  }

  // ---------------------------------------------------------------- any order of questions

  /** What asking for token i shows. */
  ghost function Answer(full: seq<string>, i: int): string {
    if 0 <= i < |full| then full[i] else []
  }

  /** Tokens asked for in any order, and any number of times, are those of the
      full split; and what was returned still stands after all later calls. */
  method AskAll(parser: CEasyStrParse, asks: seq<nat>) returns (ps: seq<Pointer>)
    requires parser.Valid() && forall k :: 0 <= k < |asks| ==> asks[k] < 0x7fff_ffff
    modifies parser`params, parser`start, parser.buf
    ensures parser.Valid() && |ps| == |asks|
    ensures forall k :: 0 <= k < |ps| ==> parser.Text(ps[k]) == Answer(parser.full, asks[k])
  {
    ps := [];
    hide CEasyStrParse.Valid;
    for k := 0 to |asks|
      invariant parser.Valid() && |ps| == k
      invariant forall j :: 0 <= j < k ==> Shows(parser.params, parser.full, ps[j], asks[j])
    {
      var p := parser.Param(asks[k]);
      ps := ps + [p];
    }
    forall k | 0 <= k < |ps| ensures parser.Text(ps[k]) == Answer(parser.full, asks[k]) {
      TextShown(parser, ps[k], asks[k]);
    }
  }

  lemma TextShown(parser: CEasyStrParse, p: Pointer, i: nat)
    requires parser.Valid() && Shows(parser.params, parser.full, p, i)
    ensures parser.Text(p) == Answer(parser.full, i)
  {
    if i < |parser.full| {
      CStrIs(parser.buf[..], parser.params[i], parser.full[i]);
    }
  }

  /** p is the place of token i, or of the empty text. */
  ghost predicate Shows(params: seq<nat>, full: seq<string>, p: Pointer, i: nat) {
    if i < |full| then i < |params| && p == At(params[i]) else p == Empty
  }

  // ---------------------------------------------------------------- plain fields

  /** c opens a quotation. */
  ghost predicate IsOpening(pairs: string, c: char) {
    exists j :: 0 <= j && 2 * j + 1 < |pairs| && pairs[2 * j] == c
  }

  /** Neither a delimiter nor an opening quote is in the text. */
  ghost predicate IsPlain(cfg: Config, text: string) {
    forall i :: 0 <= i < |text| ==> text[i] !in cfg.delims && !IsOpening(cfg.pairs, text[i])
  }

  lemma OpensNothing(pairs: string, c: char)
    ensures !IsOpening(pairs, c) ==> Opens(pairs, c) == -1
  {
    var q := Opens(pairs, c);
    if q >= 0 {
      assert q == 2 * (q / 2) + 1 && pairs[2 * (q / 2)] == c;
    }
  }

  /** The first pair that c opens is in force. */
  lemma {:induction false} OpensFirst(pairs: string, c: char, j: nat, p: nat)
    requires j <= p && 2 * p + 1 < |pairs| && pairs[2 * p] == c && forall i :: 0 <= i < p ==> pairs[2 * i] != c
    ensures OpensFrom(pairs, c, j) == 2 * p + 1
    decreases p - j
  {
    if j < p {
      OpensFirst(pairs, c, j + 1, p);
    }
  }

  lemma {:induction false} ReadPlain(cfg: Config, text: string, rest: string, cur: string)
    requires IsPlain(cfg, text)
    ensures Tokens(cfg, text + rest, -1, cur) == Tokens(cfg, rest, -1, cur + text)
    decreases |text|
  {
    hide Tokens, IsOpening;
    if text == [] {
      assert text + rest == rest && cur + text == cur;
    } else {
      OpensNothing(cfg.pairs, text[0]);
      ReadOne(cfg, text[0], text[1..] + rest, cur);
      assert text + rest == [text[0]] + (text[1..] + rest);
      ReadPlain(cfg, text[1..], rest, cur + [text[0]]);
      assert cur + [text[0]] + text[1..] == cur + text;
    }
  }

  lemma ReadOne(cfg: Config, c: char, more: string, cur: string)
    requires c !in cfg.delims && Opens(cfg.pairs, c) == -1
    ensures Tokens(cfg, [c] + more, -1, cur) == Tokens(cfg, more, -1, cur + [c])
  {
    assert ([c] + more)[1..] == more;
  }

  /** A delimiter outside of quotes ends the token; one that is an opening quote as
      well opens a quotation after it. */
  lemma ReadDelim(cfg: Config, d: char, more: string, cur: string)
    requires d in cfg.delims
    ensures Tokens(cfg, [d] + more, -1, cur) ==
            (if cfg.keepNil || cur != [] then [cur] else []) + Tokens(cfg, more, Opens(cfg.pairs, d), [])
  {
    assert ([d] + more)[1..] == more;
  }

  /** The texts with a delimiter between any two. */
  function Joined(texts: seq<string>, ds: string): string
    requires |texts| == |ds| + 1
    decreases |texts|
  {
    if ds == [] then texts[0] else texts[0] + [ds[0]] + Joined(texts[1..], ds[1..])
  }

  /** Those that are kept: an empty one when empty ones are, the last one never. */
  function Kept(cfg: Config, texts: seq<string>): seq<string>
    requires texts != []
    decreases |texts|
  {
    if |texts| == 1 then (if texts[0] == [] then [] else texts)
    else (if cfg.keepNil || texts[0] != [] then [texts[0]] else []) + Kept(cfg, texts[1..])
  }

  /** Any delimiters that are no opening quotes split a text of plain fields into
      these. */
  lemma {:induction false} PlainSplit(cfg: Config, texts: seq<string>, ds: string)
    requires cfg.delims != [] && |texts| == |ds| + 1
    requires forall i :: 0 <= i < |texts| ==> IsPlain(cfg, texts[i])
    requires forall i :: 0 <= i < |ds| ==> ds[i] in cfg.delims && !IsOpening(cfg.pairs, ds[i])
    ensures Split(cfg, Joined(texts, ds)) == Kept(cfg, texts)
    decreases |texts|
  {
    hide IsPlain, IsOpening;
    var t := texts[0];
    assert [] + t == t;
    if ds == [] {
      ReadPlain(cfg, t, [], []);
      assert t + [] == t;
    } else {
      var rest := Joined(texts[1..], ds[1..]);
      assert Joined(texts, ds) == t + ([ds[0]] + rest);
      ReadPlain(cfg, t, [ds[0]] + rest, []);
      OpensNothing(cfg.pairs, ds[0]);
      ReadDelim(cfg, ds[0], rest, t);
      PlainSplit(cfg, texts[1..], ds[1..]);
    }
  }

  /** Behind a delimiter that is an opening quote as well no delimiter splits any
      more, up to the closing quote. */
  lemma OpeningDelimiter(cfg: Config, p: nat, text: string, u: string)
    requires 2 * p + 1 < |cfg.pairs| && cfg.pairs[2 * p] in cfg.delims && cfg.pairs[2 * p + 1] !in u
    requires IsPlain(cfg, text) && forall i :: 0 <= i < p ==> cfg.pairs[2 * i] != cfg.pairs[2 * p]
    ensures Split(cfg, text + [cfg.pairs[2 * p]] + u) == Kept(cfg, [text, u])
  {
    hide Tokens, IsPlain;
    var d := cfg.pairs[2 * p];
    assert text + [d] + u == text + ([d] + u) && [] + text == text && [] + u == u;
    ReadPlain(cfg, text, [d] + u, []);
    ReadDelim(cfg, d, u, text);
    OpensFirst(cfg.pairs, d, 0, p);
    ReadInside(cfg, 2 * p + 1, u, []);
    assert [text, u][1..] == [u];
  }

  lemma {:induction false} ReadInside(cfg: Config, q: nat, u: string, cur: string)
    requires q < |cfg.pairs| && cfg.pairs[q] !in u
    ensures Tokens(cfg, u, q, cur) == if cur + u == [] then [] else [cur + u]
    decreases |u|
  {
    if u == [] {
      assert cur + u == cur;
    } else {
      assert |u| >= 2 ==> u[1] in u;
      ReadInside(cfg, q, u[1..], cur + [u[0]]);
      assert cur + [u[0]] + u[1..] == cur + u;
    }
  }

  /** A quotation that is never closed takes in the rest of the text. */
  lemma UnclosedQuote(cfg: Config, p: nat, text: string, u: string)
    requires cfg.delims != [] && 2 * p + 1 < |cfg.pairs| && cfg.pairs[2 * p] !in cfg.delims && cfg.pairs[2 * p + 1] !in u
    requires IsPlain(cfg, text) && forall i :: 0 <= i < p ==> cfg.pairs[2 * i] != cfg.pairs[2 * p]
    ensures Split(cfg, text + [cfg.pairs[2 * p]] + u) == [text + [cfg.pairs[2 * p]] + u]
  {
    hide IsPlain;
    var o := cfg.pairs[2 * p];
    assert text + [o] + u == text + ([o] + u) && [] + text == text && ([o] + u)[1..] == u;
    ReadPlain(cfg, text, [o] + u, []);
    OpensFirst(cfg.pairs, o, 0, p);
    ReadInside(cfg, 2 * p + 1, u, text + [o]);
  }

  // ---------------------------------------------------------------- quoted fields

  /** text with an escape character before each closing quote */
  function Escape(text: string, cl: char, zy: char): string {
    if text == [] then [] else (if text[0] == cl then [zy, cl] else [text[0]]) + Escape(text[1..], cl, zy)
  }

  predicate EndsWith(text: string, c: char) {
    text != [] && text[|text| - 1] == c
  }

  /** Pair p of quotes can be used: its quotes are no delimiters, and no earlier
      pair has the same opening one. */
  ghost predicate Pair(cfg: Config, p: nat) {
    && 2 * p + 1 < |cfg.pairs| && cfg.delims != []
    && cfg.pairs[2 * p] !in cfg.delims && cfg.pairs[2 * p + 1] !in cfg.delims
    && forall i :: 0 <= i < p ==> cfg.pairs[2 * i] != cfg.pairs[2 * p]
  }

  function Quoted(cfg: Config, p: nat, text: string): string
    requires 2 * p + 1 < |cfg.pairs|
  {
    [cfg.pairs[2 * p]] + Escape(text, cfg.pairs[2 * p + 1], cfg.zy) + [cfg.pairs[2 * p + 1]]
  }

  /** What can be put between the quotes of pair p: with an escape character of its
      own no text that ends with it; with the closing quote as escape character,
      where it is doubled, any text. */
  predicate Quotable(cfg: Config, p: nat, text: string)
    requires 2 * p + 1 < |cfg.pairs|
  {
    cfg.zy == cfg.pairs[2 * p + 1] || !EndsWith(text, cfg.zy)
  }

  /** Inside quotes escaped text is read as what it stands for. */
  lemma {:induction false} ReadEscaped(cfg: Config, p: nat, text: string, tail: string, cur: string)
    requires Pair(cfg, p) && tail != []
    requires cfg.zy != cfg.pairs[2 * p + 1] && EndsWith(text, cfg.zy) ==> tail[0] != cfg.pairs[2 * p + 1]
    ensures Tokens(cfg, Escape(text, cfg.pairs[2 * p + 1], cfg.zy) + tail, 2 * p + 1, cur) ==
            Tokens(cfg, tail, 2 * p + 1, cur + text)
    decreases |text|
  {
    hide Tokens;
    var cl, zy := cfg.pairs[2 * p + 1], cfg.zy;
    if text == [] {
      assert [] + tail == tail && cur + text == cur;
    } else {
      var more := Escape(text[1..], cl, zy) + tail;
      ReadEscaped(cfg, p, text[1..], tail, cur + [text[0]]);
      assert cur + [text[0]] + text[1..] == cur + text;
      if text[0] == cl {
        assert Escape(text, cl, zy) + tail == [zy, cl] + more;
        ReadPair(cfg, p, more, cur);
      } else {
        assert Escape(text, cl, zy) + tail == [text[0]] + more;
        assert text[1..] != [] ==> more[0] == if text[1] == cl then zy else text[1];
        ReadQuotedOne(cfg, p, text[0], more, cur);
      }
    }
  }

  lemma ReadPair(cfg: Config, p: nat, more: string, cur: string)
    requires Pair(cfg, p)
    ensures Tokens(cfg, [cfg.zy, cfg.pairs[2 * p + 1]] + more, 2 * p + 1, cur) ==
            Tokens(cfg, more, 2 * p + 1, cur + [cfg.pairs[2 * p + 1]])
  {
    assert ([cfg.zy, cfg.pairs[2 * p + 1]] + more)[2..] == more;
  }

  lemma ReadQuotedOne(cfg: Config, p: nat, c: char, more: string, cur: string)
    requires Pair(cfg, p) && c != cfg.pairs[2 * p + 1] && more != [] && (c == cfg.zy ==> more[0] != cfg.pairs[2 * p + 1])
    ensures Tokens(cfg, [c] + more, 2 * p + 1, cur) == Tokens(cfg, more, 2 * p + 1, cur + [c])
  {
    assert ([c] + more)[1..] == more;
  }

  lemma ReadQuoted(cfg: Config, p: nat, text: string, rest: string, cur: string)
    requires Pair(cfg, p) && Quotable(cfg, p, text)
    requires cfg.zy == cfg.pairs[2 * p + 1] && rest != [] ==> rest[0] != cfg.pairs[2 * p + 1]
    ensures Tokens(cfg, Quoted(cfg, p, text) + rest, -1, cur) ==
            Tokens(cfg, rest, -1, cur + ([cfg.pairs[2 * p]] + text + [cfg.pairs[2 * p + 1]]))
  {
    var o, cl := cfg.pairs[2 * p], cfg.pairs[2 * p + 1];
    var s, tail := Quoted(cfg, p, text) + rest, [cl] + rest;
    assert s[1..] == Escape(text, cl, cfg.zy) + tail && s[0] == o;
    OpensFirst(cfg.pairs, o, 0, p);
    ReadEscaped(cfg, p, text, tail, cur + [o]);
    assert tail[1..] == rest;
    assert cur + [o] + text + [cl] == cur + ([o] + text + [cl]);
  }

  /** A quoted text comes back as one token, quotes included, exactly when the
      escape character is the closing quote or the text does not end with it: that
      one would escape the closing quote, and there is no way to escape it. */
  lemma QuotedRoundTrip(cfg: Config, p: nat, text: string)
    requires Pair(cfg, p)
    ensures Split(cfg, Quoted(cfg, p, text)) == [[cfg.pairs[2 * p]] + text + [cfg.pairs[2 * p + 1]]] <==> Quotable(cfg, p, text)
  {
    hide Tokens, Escape;
    var shown := [cfg.pairs[2 * p]] + text + [cfg.pairs[2 * p + 1]];
    if !Quotable(cfg, p, text) {
      LastEscaped(cfg, p, text);
      assert |[cfg.pairs[2 * p]] + text[..|text| - 1] + [cfg.pairs[2 * p + 1]]| < |shown|;
    } else {
      ReadQuoted(cfg, p, text, [], []);
      assert Quoted(cfg, p, text) + [] == Quoted(cfg, p, text) && [] + shown == shown;
      ReadNothing(cfg, -1, shown);
    }
  }

  lemma ReadNothing(cfg: Config, q: int, cur: string)
    requires q < |cfg.pairs|
    ensures Tokens(cfg, [], q, cur) == if cur == [] then [] else [cur]
  {
  }

  /** The last character escapes the closing quote, so it is lost. */
  lemma LastEscaped(cfg: Config, p: nat, text: string)
    requires Pair(cfg, p) && !Quotable(cfg, p, text)
    ensures Split(cfg, Quoted(cfg, p, text)) == [[cfg.pairs[2 * p]] + text[..|text| - 1] + [cfg.pairs[2 * p + 1]]]
  {
    hide Tokens;
    var o, cl, zy := cfg.pairs[2 * p], cfg.pairs[2 * p + 1], cfg.zy;
    var pre := text[..|text| - 1];
    assert text == pre + [zy];
    EscapeLast(pre, zy, cl);
    OpensFirst(cfg.pairs, o, 0, p);
    var body := Escape(pre, cl, zy) + [zy, cl];
    assert Quoted(cfg, p, text) == [o] + body;
    ReadOpening(cfg, p, body);
    ReadEscaped(cfg, p, pre, [zy, cl], [o]);
    ReadPair(cfg, p, [], [o] + pre);
    assert [zy, cl] + [] == [zy, cl];
    ReadNothing(cfg, 2 * p + 1, [o] + pre + [cl]);
  }

  lemma ReadOpening(cfg: Config, p: nat, more: string)
    requires Pair(cfg, p)
    ensures Tokens(cfg, [cfg.pairs[2 * p]] + more, -1, []) == Tokens(cfg, more, 2 * p + 1, [cfg.pairs[2 * p]])
  {
    OpensFirst(cfg.pairs, cfg.pairs[2 * p], 0, p);
    assert ([cfg.pairs[2 * p]] + more)[1..] == more;
    assert [] + [cfg.pairs[2 * p]] == [cfg.pairs[2 * p]];
  }

  lemma {:induction false} EscapeLast(pre: string, zy: char, cl: char)
    requires zy != cl
    ensures Escape(pre + [zy], cl, zy) == Escape(pre, cl, zy) + [zy]
    decreases |pre|
  {
    if pre != [] {
      EscapeLast(pre[1..], zy, cl);
      assert (pre + [zy])[1..] == pre[1..] + [zy];
    }
  }

  /** A part of a field: as it stands, or between quotes. */
  datatype Part = Bare(text: string) | InQuotes(p: nat, text: string)

  function Written(cfg: Config, f: Part): string
    requires f.InQuotes? ==> 2 * f.p + 1 < |cfg.pairs|
  {
    match f
    case Bare(text) => text
    case InQuotes(p, text) => Quoted(cfg, p, text)
  }

  function Shown(cfg: Config, f: Part): string
    requires f.InQuotes? ==> 2 * f.p + 1 < |cfg.pairs|
  {
    match f
    case Bare(text) => text
    case InQuotes(p, text) => [cfg.pairs[2 * p]] + text + [cfg.pairs[2 * p + 1]]
  }

  ghost predicate Usable(cfg: Config, fs: seq<Part>) {
    forall i :: 0 <= i < |fs| ==> fs[i].InQuotes? ==> Pair(cfg, fs[i].p)
  }

  /** A field is its parts one behind the other. */
  ghost function WrittenAll(cfg: Config, fs: seq<Part>): string
    requires Usable(cfg, fs)
  {
    if fs == [] then [] else Written(cfg, fs[0]) + WrittenAll(cfg, fs[1..])
  }

  ghost function ShownAll(cfg: Config, fs: seq<Part>): string
    requires Usable(cfg, fs)
  {
    if fs == [] then [] else Shown(cfg, fs[0]) + ShownAll(cfg, fs[1..])
  }

  /** The parts are plain or quotable; and where closing quotes are doubled, none
      follows right behind a quoted part. */
  ghost predicate Readable(cfg: Config, fs: seq<Part>, next: string) {
    && Usable(cfg, fs)
    && (fs != [] ==>
          var more := WrittenAll(cfg, fs[1..]) + next;
          && Readable(cfg, fs[1..], next)
          && match fs[0]
             case Bare(text) => IsPlain(cfg, text)
             case InQuotes(p, text) =>
               Quotable(cfg, p, text) && (cfg.zy == cfg.pairs[2 * p + 1] && more != [] ==> more[0] != cfg.pairs[2 * p + 1]))
  }

  lemma {:induction false} ReadField(cfg: Config, fs: seq<Part>, next: string, cur: string)
    requires Readable(cfg, fs, next)
    ensures Tokens(cfg, WrittenAll(cfg, fs) + next, -1, cur) == Tokens(cfg, next, -1, cur + ShownAll(cfg, fs))
    decreases |fs|
  {
    hide Tokens, IsPlain, Quotable;
    if fs == [] {
      assert [] + next == next && cur + [] == cur;
    } else {
      var more := WrittenAll(cfg, fs[1..]) + next;
      assert WrittenAll(cfg, fs) + next == Written(cfg, fs[0]) + more;
      match fs[0] {
        case Bare(text) => ReadPlain(cfg, text, more, cur);
        case InQuotes(p, text) => ReadQuoted(cfg, p, text, more, cur);
      }
      ReadField(cfg, fs[1..], next, cur + Shown(cfg, fs[0]));
      assert cur + Shown(cfg, fs[0]) + ShownAll(cfg, fs[1..]) == cur + ShownAll(cfg, fs);
    }
  }

  /** What stands behind field i of a record. */
  function Behind(ds: string, i: nat): string {
    if i < |ds| then [ds[i]] else []
  }

  ghost function Fields(cfg: Config, fields: seq<seq<Part>>): (texts: seq<string>)
    requires forall i :: 0 <= i < |fields| ==> Usable(cfg, fields[i])
    ensures |texts| == |fields|
  {
    seq(|fields|, i requires 0 <= i < |fields| => WrittenAll(cfg, fields[i]))
  }

  ghost function FieldsShown(cfg: Config, fields: seq<seq<Part>>): (texts: seq<string>)
    requires forall i :: 0 <= i < |fields| ==> Usable(cfg, fields[i])
    ensures |texts| == |fields|
  {
    seq(|fields|, i requires 0 <= i < |fields| => ShownAll(cfg, fields[i]))
  }

  /** A record splits into its fields: each of any plain and quoted parts, with any
      pairs of quotes, and any delimiters that are no opening quotes between them. */
  lemma {:induction false} RecordRoundTrip(cfg: Config, fields: seq<seq<Part>>, ds: string)
    requires cfg.delims != [] && |fields| == |ds| + 1
    requires forall i :: 0 <= i < |fields| ==> Usable(cfg, fields[i]) && Readable(cfg, fields[i], Behind(ds, i))
    requires forall i :: 0 <= i < |ds| ==> ds[i] in cfg.delims && !IsOpening(cfg.pairs, ds[i])
    ensures Split(cfg, Joined(Fields(cfg, fields), ds)) == Kept(cfg, FieldsShown(cfg, fields))
    decreases |fields|
  {
    hide Readable, Usable, IsOpening, WrittenAll, ShownAll, Tokens, Opens, IsPlain, Fields, FieldsShown;
    FieldsAre(cfg, fields);
    var texts, shown := Fields(cfg, fields), FieldsShown(cfg, fields);
    var t := shown[0];
    assert [] + t == t;
    if ds == [] {
      ReadField(cfg, fields[0], [], []);
      assert texts[0] + [] == texts[0];
      ReadNothing(cfg, -1, t);
    } else {
      var rest := Joined(texts[1..], ds[1..]);
      assert Joined(texts, ds) == texts[0] + ([ds[0]] + rest);
      ReadableFurther(cfg, fields[0], ds[0], rest);
      ReadField(cfg, fields[0], [ds[0]] + rest, []);
      OpensNothing(cfg.pairs, ds[0]);
      ReadDelim(cfg, ds[0], rest, t);
      assert forall i :: 0 <= i < |fields[1..]| ==> Behind(ds[1..], i) == Behind(ds, i + 1);
      RecordRoundTrip(cfg, fields[1..], ds[1..]);
      OtherFields(cfg, fields);
    }
  }

  lemma FieldsAre(cfg: Config, fields: seq<seq<Part>>)
    requires forall i :: 0 <= i < |fields| ==> Usable(cfg, fields[i])
    ensures forall i :: 0 <= i < |fields| ==>
      Fields(cfg, fields)[i] == WrittenAll(cfg, fields[i]) && FieldsShown(cfg, fields)[i] == ShownAll(cfg, fields[i])
  {
    hide Usable, WrittenAll, ShownAll;
  }

  lemma OtherFields(cfg: Config, fields: seq<seq<Part>>)
    requires fields != [] && forall i :: 0 <= i < |fields| ==> Usable(cfg, fields[i])
    ensures Fields(cfg, fields[1..]) == Fields(cfg, fields)[1..] && FieldsShown(cfg, fields[1..]) == FieldsShown(cfg, fields)[1..]
  {
    hide Usable, WrittenAll, ShownAll;
  }

  /** Only the first character behind a field matters to it. */
  lemma {:induction false} ReadableFurther(cfg: Config, fs: seq<Part>, d: char, rest: string)
    requires Readable(cfg, fs, [d])
    ensures Readable(cfg, fs, [d] + rest)
    decreases |fs|
  {
    if fs != [] {
      ReadableFurther(cfg, fs[1..], d, rest);
      var w := WrittenAll(cfg, fs[1..]);
      assert (w + [d])[0] == (w + ([d] + rest))[0];
    }
  }
}
