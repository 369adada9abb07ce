/**
  String values in .config files: escape_string_value and the CONFIG_ lines written by confdata.c,
  and the loops that read them back in place, in buffers of characters that end at a NUL.
 */
module KconfigConfdata {
  import opened Common

  const NUL: char := '\0'

  predicate Special(c: char) {
    c == '"' || c == '\\'
  }

  // ---------------------------------------------------------------- what is written and read

  function EscChar(c: char): string {
    if Special(c) then ['\\', c] else [c]
  }

  /** A backslash before every quote and every backslash. */
  function Esc(s: string): string {
    if s == "" then "" else EscChar(s[0]) + Esc(s[1..])
  }

  function Quoted(s: string): string {
    ['"'] + Esc(s) + ['"']
  }

  function Prepend(a: string, o: Option<string>): Option<string> {
    if o.None? then None else Some(a + o.value)
  }

  /** What follows an opening quote: the characters up to the closing one, without the backslashes. */
  function Unescape(t: string): Option<string> {
    if t == "" then None
    else if t[0] == '"' then Some("")
    else if t[0] != '\\' then Prepend([t[0]], Unescape(t[1..]))
    else if |t| == 1 then None
    else Prepend([t[1]], Unescape(t[2..]))
  }

  lemma {:induction false} UnescapeEsc(s: string, rest: string)
    ensures Unescape(Esc(s) + ['"'] + rest) == Some(s)
  {
    if s == "" {
      assert Esc(s) + ['"'] + rest == ['"'] + rest;
    } else {
      UnescapeEsc(s[1..], rest);
      var t := Esc(s[1..]) + ['"'] + rest;
      if Special(s[0]) {
        assert Esc(s) + ['"'] + rest == ['\\', s[0]] + t;
        assert (['\\', s[0]] + t)[2..] == t;
      } else {
        assert Esc(s) + ['"'] + rest == [s[0]] + t;
        assert ([s[0]] + t)[1..] == t;
      }
      assert s == [s[0]] + s[1..];
    }
  }

  /** One more character for every quote and every backslash, and for nothing else. */
  lemma {:induction false} EscLength(s: string)
    ensures |Esc(s)| == |s| + multiset(s)['"'] + multiset(s)['\\']
  {
    if s != "" {
      EscLength(s[1..]);
      assert s == [s[0]] + s[1..];
      assert multiset(s) == multiset{s[0]} + multiset(s[1..]);
    }
  }

  lemma {:induction false} EscConcat(a: string, b: string)
    ensures Esc(a + b) == Esc(a) + Esc(b)
  {
    if a == "" {
      assert a + b == b;
    } else {
      EscConcat(a[1..], b);
      assert (a + b)[0] == a[0] && (a + b)[1..] == a[1..] + b;
      Assoc(EscChar(a[0]), Esc(a[1..]), Esc(b));
    }
  }

  predicate NoneSpecial(s: string) {
    forall i :: 0 <= i < |s| ==> !Special(s[i])
  }

  lemma {:induction false} EscPlain(s: string)
    requires NoneSpecial(s)
    ensures Esc(s) == s
  {
    if s != "" {
      EscPlain(s[1..]);
      assert s == [s[0]] + s[1..];
    }
  }

  lemma EscOne(c: char)
    ensures Esc([c]) == EscChar(c)
  {
    assert [c][1..] == "" && Esc("") == "";
  }

  lemma {:induction false} UnescapePlain(a: string, t: string)
    requires NoneSpecial(a)
    ensures Unescape(a + t) == Prepend(a, Unescape(t))
  {
    if a == "" {
      assert a + t == t;
      if Unescape(t).Some? {
        assert a + Unescape(t).value == Unescape(t).value;
      }
    } else {
      UnescapePlain(a[1..], t);
      assert (a + t)[1..] == a[1..] + t;
      assert a == [a[0]] + a[1..];
      if Unescape(t).Some? {
        assert [a[0]] + (a[1..] + Unescape(t).value) == a + Unescape(t).value;
      }
    }
  }

  // ---------------------------------------------------------------- escape_string_value

  /** strcspn from position p on. */
  method Span(s: string, p: nat) returns (k: nat)
    requires p <= |s|
    ensures p <= k <= |s| && NoneSpecial(s[p..k]) && (k < |s| ==> Special(s[k]))
  {
    k := p;
    while k < |s| && !Special(s[k])
      invariant p <= k <= |s| && forall i :: p <= i < k ==> !Special(s[i])
    {
      k := k + 1;
    }
  }

  /** Esc of a prefix that is continued by plain characters, and by a special one. */
  lemma EscStep(s: string, p: nat, k: nat)
    requires p <= k <= |s| && NoneSpecial(s[p..k]) && (k < |s| ==> Special(s[k]))
    ensures Esc(s[..k]) == Esc(s[..p]) + s[p..k]
    ensures k < |s| ==> Esc(s[..k + 1]) == Esc(s[..k]) + ['\\', s[k]]
  {
    assert s[..k] == s[..p] + s[p..k];
    EscConcat(s[..p], s[p..k]);
    EscPlain(s[p..k]);
    if k < |s| {
      assert s[..k + 1] == s[..k] + [s[k]];
      EscConcat(s[..k], [s[k]]);
      EscOne(s[k]);
    }
  }

  /** The first loop: the room the escaped string needs, with its quotes and the NUL. */
  method EscapedLength(s: string) returns (len: nat)
    ensures len == |Quoted(s)| + 1
  {
    len := |s| + 2 + 1;
    var p := 0;
    while true
      invariant 0 <= p <= |s| && len == |Esc(s[..p])| + (|s| - p) + 3
      decreases |s| - p
    {
      var k := Span(s, p);
      EscStep(s, p, k);
      p := k;
      if p == |s| {
        break;
      }
      len := len + 1;
      p := p + 1;
    }
    assert s[..|s|] == s;
  }

  /** strcat and strncat: t behind the n characters in the buffer, which must have room for it. */
  method Append(out: array<char>, n: nat, t: string) returns (m: nat)
    requires n + |t| < out.Length && out[n] == NUL
    modifies out
    ensures m == n + |t| && out[..m] == old(out[..n]) + t && out[m] == NUL
  {
    forall i | n <= i < n + |t| {
      out[i] := t[i - n];
    }
    m := n + |t|;
    out[m] := NUL;
  }

  /** One turn of the second loop: plain characters, and a special one unless the string has ended. */
  method EscapeNext(s: string, p: nat, out: array<char>, n: nat) returns (q: nat, m: nat)
    requires p <= |s| && out.Length == |Quoted(s)| + 1 && n < out.Length && out[n] == NUL
    requires out[..n] == ['"'] + Esc(s[..p])
    modifies out
    ensures p <= q <= |s| && m < out.Length && out[m] == NUL && out[..m] == ['"'] + Esc(s[..q])
    ensures q == p ==> q == |s|
  {
    q := Span(s, p);
    EscStep(s, p, q);
    Fits(s, q);
    m := Append(out, n, s[p..q]);
    if q < |s| {
      m := EscapeSpecial(s, q, out, m);
      q := q + 1;
    }
  }

  method EscapeSpecial(s: string, p: nat, out: array<char>, n: nat) returns (m: nat)
    requires p < |s| && Special(s[p]) && out.Length == |Quoted(s)| + 1 && n < out.Length && out[n] == NUL
    requires out[..n] == ['"'] + Esc(s[..p])
    modifies out
    ensures m < out.Length && out[m] == NUL && out[..m] == ['"'] + Esc(s[..p + 1])
  {
    EscStep(s, p, p);
    Fits(s, p + 1);
    m := Append(out, n, ['\\']);
    m := Append(out, m, [s[p]]);
  }

  /** escape_string_value: the buffer is filled exactly, and never overrun. */
  method EscapeStringValue(s: string) returns (out: array<char>)
    ensures fresh(out) && out[..] == Quoted(s) + [NUL]
  {
    var len := EscapedLength(s);
    out := new char[len](_ => NUL);
    var n: nat := Append(out, 0, ['"']);
    var p: nat := 0;
    while p < |s|
      invariant p <= |s| && out.Length == |Quoted(s)| + 1 && n < out.Length && out[n] == NUL && fresh(out)
      invariant out[..n] == ['"'] + Esc(s[..p])
    {
      p, n := EscapeNext(s, p, out, n);
    }
    assert s[..|s|] == s;
    n := Append(out, n, ['"']);
    assert out[..] == out[..n] + [out[n]];
  }

  lemma Fits(s: string, k: nat)
    requires k <= |s|
    ensures |Esc(s[..k])| <= |Esc(s)|
  {
    assert s == s[..k] + s[k..];
    EscConcat(s[..k], s[k..]);
  }

  // ---------------------------------------------------------------- conf_set_sym_val

  /** The buffer holds the string t at position p. */
  ghost predicate Holds(b: seq<char>, p: nat, t: string) {
    p + |t| < |b| && b[p + |t|] == NUL && forall x :: p <= x < p + |t| ==> b[x] == t[x - p] && b[x] != NUL
  }

  /** strpbrk: the next quote or backslash, or the NUL. */
  method Find(buf: array<char>, q: nat, ghost u: string) returns (k: nat)
    requires Holds(buf[..], q, u)
    ensures q <= k <= q + |u| < buf.Length && NoneSpecial(u[..k - q])
    ensures if k < q + |u| then Special(buf[k]) && buf[k] == u[k - q] else buf[k] == NUL
  {
    k := q;
    while buf[k] != NUL && !Special(buf[k])
      invariant q <= k <= q + |u| < buf.Length && forall x :: q <= x < k ==> !Special(buf[x])
      decreases q + |u| - k
    {
      k := k + 1;
    }
    forall i | 0 <= i < k - q
      ensures !Special(u[i])
    {
      assert buf[..][q + i] == u[i];
    }
  }

  method StringLength(buf: array<char>, k: nat, ghost t: string) returns (n: nat)
    requires Holds(buf[..], k, t)
    ensures n == |t|
  {
    n := 0;
    while buf[k + n] != NUL
      invariant n <= |t|
      decreases |t| - n
    {
      n := n + 1;
    }
  }

  /** memmove(p2, p2 + 1, strlen(p2)): the string at k loses its first character. */
  method DropFirst(buf: array<char>, k: nat, ghost t: string)
    requires Holds(buf[..], k, t) && t != ""
    modifies buf
    ensures Holds(buf[..], k, t[1..]) && k + |t| < buf.Length && buf[k + |t|] == NUL
    ensures buf[..k] == old(buf[..k])
  {
    var n := StringLength(buf, k, t);
    forall i | k <= i < k + n {
      buf[i] := buf[i + 1];
    }
  }

  /**
    The loop of conf_set_sym_val behind the opening quote: it takes the backslashes out in place and
    puts a NUL over the closing quote, if there is one.
   */
  method Unquote(buf: array<char>, p: nat, ghost t: string) returns (ok: bool)
    requires Holds(buf[..], p, t)
    modifies buf
    ensures ok <==> Unescape(t).Some?
    ensures ok ==> Holds(buf[..], p, Unescape(t).value)
    ensures buf[..p] == old(buf[..p])
  {
    var q := p;
    ghost var u := t;
    ok := false;
    GoingStart(buf[..], p, t);
    var more := true;
    while more
      invariant p <= q && buf[..p] == old(buf[..p]) && (more ==> Going(buf[..], p, q, t, u) && !ok)
      invariant !more ==> (ok <==> Unescape(t).Some?) && (ok ==> Holds(buf[..], p, Unescape(t).value))
      decreases more, |u|
    {
      more, ok, q, u := UnquoteNext(buf, p, q, t, u);
    }
  }

  /** So far the loop has left buf[p..q], and it still has to read u. */
  ghost predicate Going(b: seq<char>, p: nat, q: nat, t: string, u: string) {
    && p <= q && Holds(b, q, u) && Unescape(t) == Prepend(b[p..q], Unescape(u))
    && (Unescape(u).Some? ==> NUL !in b[p..q])
  }

  lemma GoingStart(b: seq<char>, p: nat, t: string)
    requires Holds(b, p, t)
    ensures Going(b, p, p, t, t)
  {
    if Unescape(t).Some? {
      assert b[p..p] + Unescape(t).value == Unescape(t).value;
    }
  }

  /** The plain characters up to position k. */
  lemma GoingPlain(b: seq<char>, p: nat, q: nat, t: string, u: string, k: nat)
    requires Going(b, p, q, t, u) && q <= k <= q + |u| && NoneSpecial(u[..k - q])
    ensures Going(b, p, k, t, u[k - q..])
  {
    var a, r := u[..k - q], u[k - q..];
    assert u == a + r && b[p..k] == b[p..q] + a;
    UnescapePlain(a, r);
    if Unescape(r).Some? {
      assert b[p..q] + (a + Unescape(r).value) == b[p..k] + Unescape(r).value;
    }
  }

  /** The backslash at k has been taken out; the character behind it stays. */
  lemma GoingBackslash(b: seq<char>, c: seq<char>, p: nat, k: nat, t: string, r: string)
    requires Going(b, p, k, t, r) && r != "" && r[0] == '\\'
    requires |c| == |b| && c[..k] == b[..k] && Holds(c, k, r[1..]) && c[k + |r|] == NUL
    ensures Going(c, p, k + 1, t, if |r| == 1 then "" else r[2..])
  {
    assert c[p..k] == c[..k][p..] == b[..k][p..] == b[p..k];
    assert c[p..k + 1] == b[p..k] + [c[k]];
    if |r| > 1 {
      assert c[k] == r[1..][0] == r[1];
      var v := Unescape(r[2..]);
      if v.Some? {
        assert b[p..k] + ([r[1]] + v.value) == c[p..k + 1] + v.value;
      }
    }
  }

  /** The closing quote at k has become the end of the string. */
  lemma GoingEnd(b: seq<char>, p: nat, k: nat, t: string, r: string)
    requires Going(b, p, k, t, r) && r != "" && r[0] == '"'
    ensures Unescape(t).Some? && Holds(b[k := NUL], p, Unescape(t).value)
  {
    assert b[p..k] + "" == b[p..k];
  }

  method UnquoteNext(buf: array<char>, p: nat, q: nat, ghost t: string, ghost u: string)
    returns (more: bool, ok: bool, q': nat, ghost u': string)
    requires Going(buf[..], p, q, t, u)
    modifies buf
    ensures p <= q' && buf[..p] == old(buf[..p])
    ensures more ==> Going(buf[..], p, q', t, u') && !ok && |u'| < |u|
    ensures !more ==> (ok <==> Unescape(t).Some?) && (ok ==> Holds(buf[..], p, Unescape(t).value))
  {
    var k := Find(buf, q, u);
    GoingPlain(buf[..], p, q, t, u, k);
    ghost var b, r := buf[..], u[k - q..];
    if buf[k] == NUL {
      return false, false, q, u;
    }
    if buf[k] == '"' {
      GoingEnd(b, p, k, t, r);
      buf[k] := NUL;
      assert buf[..] == b[k := NUL];
      return false, true, q, u;
    }
    DropFirst(buf, k, r);
    assert buf[..][..k] == b[..k];
    GoingBackslash(b, buf[..], p, k, t, r);
    q' := k + 1;
    more, ok := true, false;
    u' := if |r| == 1 then "" else r[2..];
    assert buf[..p] == buf[..][..k][..p];
  }

  // ---------------------------------------------------------------- whole lines

  const PREFIX: string := "CONFIG_"

  /** Where c first occurs, or the length of the string. */
  function IndexOf(s: string, c: char): (k: nat)
    ensures k <= |s| && c !in s[..k] && (k < |s| ==> s[k] == c)
  {
    if s == "" || s[0] == c then 0 else 1 + IndexOf(s[1..], c)
  }

  lemma IndexIs(s: string, c: char, k: nat)
    requires k <= |s| && c !in s[..k] && (k < |s| ==> s[k] == c)
    ensures IndexOf(s, c) == k
  {
    var j := IndexOf(s, c);
    assert forall i :: 0 <= i < k ==> s[i] in s[..k];
    assert forall i :: 0 <= i < j ==> s[i] in s[..j];
  }

  /** What reading the value of a string symbol comes to: a text without quotes is passed over. */
  datatype Read = Nothing | Invalid | Value(s: string)

  function ValueOf(t: string): Read {
    if t == "" || t[0] != '"' then Nothing
    else if Unescape(t[1..]).None? then Invalid
    else Value(Unescape(t[1..]).value)
  }

  /** The text up to a newline, and without a carriage return before it. */
  function Chomp(v: string): string {
    var k := IndexOf(v, '\n');
    if k < |v| && k > 0 && v[k - 1] == '\r' then v[..k - 1] else v[..k]
  }

  /** A line that sets a symbol: its name and the value read. */
  function ParseLine(line: string): Option<(string, Read)> {
    if |line| < |PREFIX| || line[..|PREFIX|] != PREFIX then None
    else
      var rest := line[|PREFIX|..];
      var e := IndexOf(rest, '=');
      if e == |rest| then None else Some((rest[..e], ValueOf(Chomp(rest[e + 1..]))))
  }

  /** What __print_symbol writes for a string symbol, and the first line of a text. */
  function WriteLine(name: string, val: string): string {
    PREFIX + name + "=" + Quoted(val) + "\n"
  }

  function FirstLine(text: string): string {
    var k := IndexOf(text, '\n');
    if k < |text| then text[..k + 1] else text
  }

  lemma {:induction false} NewlineInEsc(s: string)
    ensures '\n' in Esc(s) <==> '\n' in s
  {
    if s != "" {
      NewlineInEsc(s[1..]);
    }
  }

  /** Whatever part of an escaped string is read, there is no closing quote in it. */
  lemma {:induction false} NoQuote(s: string, k: nat)
    requires k <= |Esc(s)|
    ensures Unescape(Esc(s)[..k]).None?
  {
    if s != "" && k > 0 {
      var head := EscChar(s[0]);
      if k >= |head| {
        NoQuote(s[1..], k - |head|);
        assert Esc(s)[..k] == head + Esc(s[1..])[..k - |head|];
        assert Esc(s)[..k][|head|..] == Esc(s[1..])[..k - |head|];
      }
    }
  }

  /** The line up to its value, if the name has no equals sign in it. */
  lemma ParseNamed(name: string, v: string)
    requires '=' !in name
    ensures ParseLine(PREFIX + name + "=" + v) == Some((name, ValueOf(Chomp(v))))
  {
    var line := PREFIX + name + "=" + v;
    var rest := line[|PREFIX|..];
    assert line[..|PREFIX|] == PREFIX && rest == name + "=" + v;
    assert rest[..|name|] == name && rest[|name|] == '=' && rest[|name| + 1..] == v;
    IndexIs(rest, '=', |name|);
  }

  /** The first line that is read back of what was written. */
  lemma FirstWritten(head: string, q: string)
    requires '\n' !in head && '\n' in q
    ensures FirstLine(head + q) == head + FirstLine(q)
  {
    var text, k := head + q, IndexOf(q, '\n');
    assert k < |q| by {
      assert q[..|q|] == q;
    }
    assert text[..|head| + k] == head + q[..k];
    IndexIs(text, '\n', |head| + k);
    assert text[..|head| + k + 1] == head + q[..k + 1];
  }

  /** Cutting the line before chomping it changes nothing. */
  lemma ChompFirst(q: string)
    ensures Chomp(FirstLine(q)) == Chomp(q)
  {
    var k := IndexOf(q, '\n');
    if k < |q| {
      var line := q[..k + 1];
      assert line[..k] == q[..k];
      IndexIs(line, '\n', k);
      if k > 0 {
        assert line[..k - 1] == q[..k - 1];
      }
    }
  }

  /** The line as it stands in the file. */
  lemma LineText(name: string, val: string)
    ensures WriteLine(name, val) == "CONFIG_" + name + "=\"" + Esc(val) + "\"\n"
  {
    assert PREFIX + name + "=" + (['"'] + Esc(val) + ['"']) + "\n" == "CONFIG_" + name + "=\"" + Esc(val) + "\"\n";
  }

  /** A string value comes back from its line exactly if there is no newline in it; otherwise it is invalid. */
  lemma RoundTrip(name: string, val: string)
    requires '=' !in name && '\n' !in name
    ensures ParseLine(FirstLine(WriteLine(name, val))) == Some((name, Value(val))) <==> '\n' !in val
    ensures '\n' in val ==> ParseLine(FirstLine(WriteLine(name, val))) == Some((name, Invalid))
  {
    var head, q := PREFIX + name + "=", Quoted(val) + "\n";
    assert WriteLine(name, val) == head + q;
    assert q[|q| - 1] == '\n';
    FirstWritten(head, q);
    ParseNamed(name, FirstLine(q));
    ChompFirst(q);
    NewlineInEsc(val);
    if '\n' !in val {
      WholeLine(val);
    } else {
      CutLine(val);
    }
  }

  lemma WholeLine(val: string)
    requires '\n' !in Esc(val)
    ensures ValueOf(Chomp(Quoted(val) + "\n")) == Value(val)
  {
    var v := Quoted(val);
    var q := v + "\n";
    assert q[..|v|] == v;
    IndexIs(q, '\n', |v|);
    assert v[|v| - 1] == '"';
    assert v[1..] == Esc(val) + ['"'] + "";
    UnescapeEsc(val, "");
  }

  lemma CutLine(val: string)
    requires '\n' in Esc(val)
    ensures ValueOf(Chomp(Quoted(val) + "\n")) == Invalid
  {
    var k := FirstNewline(Esc(val));
    CutQuoted(Esc(val), k);
    var q := Quoted(val) + "\n";
    IndexIs(q, '\n', k + 1);
    CutValue(val, q, k);
    ChompAt(q, k + 1);
  }

  lemma FirstNewline(t: string) returns (k: nat)
    requires '\n' in t
    ensures k < |t| && t[k] == '\n' && '\n' !in t[..k]
  {
    k := IndexOf(t, '\n');
    assert t[..|t|] == t;
  }

  lemma CutQuoted(t: string, k: nat)
    requires k < |t| && t[k] == '\n' && '\n' !in t[..k]
    ensures var q := ['"'] + t + ['"'] + "\n";
            q[..k + 1] == ['"'] + t[..k] && '\n' !in q[..k + 1] && q[k + 1] == '\n'
  {
    var q := ['"'] + t + ['"'] + "\n";
    assert q[..k + 1] == ['"'] + t[..k];
  }

  /** Chomping cuts at the newline, or one character before it. */
  lemma ChompAt(q: string, k: nat)
    requires k == IndexOf(q, '\n') && 0 < k < |q|
    ensures Chomp(q) == q[..k] || (Chomp(q) == q[..k - 1] && q[k - 1] == '\r')
  {
  }

  lemma CutValue(val: string, q: string, k: nat)
    requires k < |Esc(val)| && k + 1 < |q| && q[..k + 1] == ['"'] + Esc(val)[..k]
    ensures ValueOf(q[..k + 1]) == Invalid
    ensures k > 0 ==> ValueOf(q[..k]) == Invalid
    ensures q[0] == '"'
  {
    assert q[..k + 1][0] == '"';
    NoQuote(val, k);
    assert q[..k + 1][1..] == Esc(val)[..k];
    if k > 0 {
      NoQuote(val, k - 1);
      assert q[..k] == q[..k + 1][..k];
      assert q[..k][1..] == Esc(val)[..k - 1];
    }
  }

  // ---------------------------------------------------------------- reading a line in its buffer

  /** strchr: the first c, or the NUL. */
  method FindChar(buf: array<char>, q: nat, c: char, ghost u: string) returns (k: nat)
    requires Holds(buf[..], q, u) && c != NUL
    ensures k == q + IndexOf(u, c) && k < buf.Length && (buf[k] == NUL <==> k == q + |u|)
  {
    k := q;
    while buf[k] != NUL && buf[k] != c
      invariant q <= k <= q + |u| < buf.Length && forall x :: q <= x < k ==> buf[x] != c
      decreases q + |u| - k
    {
      k := k + 1;
    }
    assert c !in u[..k - q] by {
      forall i | 0 <= i < k - q
        ensures u[i] != c
      {
        assert buf[..][q + i] == u[i];
      }
    }
    IndexIs(u, c, k - q);
  }

  /** The string at p. */
  method Take(buf: array<char>, p: nat, ghost t: string) returns (s: string)
    requires Holds(buf[..], p, t)
    ensures s == t
  {
    var n := StringLength(buf, p, t);
    s := buf[p..p + n];
  }

  /** The string case of conf_set_sym_val. */
  method SetString(buf: array<char>, p: nat, ghost t: string) returns (r: Read)
    requires Holds(buf[..], p, t)
    modifies buf
    ensures r == ValueOf(t)
  {
    if buf[p] != '"' {
      return Nothing;
    }
    var ok := Unquote(buf, p + 1, t[1..]);
    if !ok {
      return Invalid;
    }
    var s := Take(buf, p + 1, Unescape(t[1..]).value);
    return Value(s);
  }

  /** The line is cut at its newline, and at a carriage return before that. */
  method Cut(buf: array<char>, p: nat, ghost v: string)
    requires p > 0 && Holds(buf[..], p, v) && buf[p - 1] == NUL
    modifies buf
    ensures Holds(buf[..], p, Chomp(v)) && buf[..p] == old(buf[..p])
  {
    var k := FindChar(buf, p, '\n', v);
    if buf[k] != NUL {
      buf[k] := NUL;
      if buf[k - 1] == '\r' {
        buf[k - 1] := NUL;
      }
    }
  }

  /** The branch of conf_read_simple for lines that set a symbol, for a string symbol. */
  method ReadLine(buf: array<char>, ghost line: string) returns (r: Option<(string, Read)>)
    requires Holds(buf[..], 0, line)
    modifies buf
    ensures r == ParseLine(line)
  {
    var i := 0;
    while i < |PREFIX|
      invariant 0 <= i <= |PREFIX| && i <= |line| && line[..i] == PREFIX[..i]
    {
      if buf[i] != PREFIX[i] {
        return None;
      }
      i := i + 1;
    }
    ghost var rest := line[|PREFIX|..];
    var e := FindChar(buf, |PREFIX|, '=', rest);
    if buf[e] == NUL {
      return None;
    }
    buf[e] := NUL;
    ghost var name, v := rest[..IndexOf(rest, '=')], rest[IndexOf(rest, '=') + 1..];
    assert Holds(buf[..], e + 1, v);
    var n := Take(buf, |PREFIX|, name);
    Cut(buf, e + 1, v);
    var value := SetString(buf, e + 1, Chomp(v));
    return Some((n, value));
  }
}
