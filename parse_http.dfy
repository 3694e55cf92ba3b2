/**
 * The HTTP request parser: a line machine REQUEST_LINE -> HEADER -> CONTENT
 * -> FINISH that consumes CRLF-terminated lines from a connection's read
 * buffer.  The two regular expressions of the source are replaced by the
 * explicit grammars RequestLineParts and HeaderParts.  The database lookup
 * behind UserVerify is a parameter `db`.  Characters stand for the bytes of
 * the connection; where the source does arithmetic on a (signed) char, the
 * character's code is taken modulo 256.
 */
module ParseHttp {
  import opened Common
  import opened ByteBuffer

  datatype ParseState = RequestLine | Header | Content | Finish

  /** The pages served under their short names. */
  const DefaultHtml: set<string> := {"/index", "/register", "/login", "/welcome", "/video", "/picture"}
  /** The form pages, with tag 0 for registration and 1 for login. */
  const DefaultHtmlTag: map<string, int> := map["/register.html" := 0, "/login.html" := 1]
  const FormType: string := "application/x-www-form-urlencoded"

  /** The database check behind UserVerify: (name, password, isLogin) to verdict. */
  type UserDb = (string, string, bool) -> bool

  /** Everything the parser keeps for one request.  `undefined` records that
      the request reached a state whose behaviour the C++ standard leaves
      undefined (see ParseFromUrlencoded). */
  datatype Request = Request(
    state: ParseState,
    httpMethod: string,
    path: string,
    version: string,
    content: string,
    header: map<string, string>,
    post: map<string, string>,
    undefined: bool)

  const Initial: Request := Request(RequestLine, "", "", "", "", map[], map[], false)

  // ---------------------------------------------------------------------
  // Scanning helpers.

  predicate NoChar(s: string, c: char) {
    forall k :: 0 <= k < |s| ==> s[k] != c
  }

  /** The characters ECMAScript's `.` does not match in a narrow-char regex. */
  predicate NoLineBreak(s: string) {
    NoChar(s, '\n') && NoChar(s, '\r')
  }

  /** Splits s at its first c: the text before it and the text after it. */
  function SplitAt(s: string, c: char): (r: Option<(string, string)>)
    ensures r.Some? ==> s == r.value.0 + [c] + r.value.1 && NoChar(r.value.0, c)
    ensures r.None? <==> NoChar(s, c)
  {
    if |s| == 0 then None
    else if s[0] == c then Some(([], s[1..]))
    else
      match SplitAt(s[1..], c)
      case None => None
      case Some((before, after)) => Some(([s[0]] + before, after))
  }

  /** The split is at the first c, so it recovers the parts of a + [c] + b
      whenever a holds no c. */
  lemma {:induction false} SplitAtFirst(a: string, b: string, c: char)
    requires NoChar(a, c)
    ensures SplitAt(a + [c] + b, c) == Some((a, b))
  {
    var s := a + [c] + b;
    if a == [] {
      assert s[0] == c && s[1..] == b;
    } else {
      assert s[0] == a[0] && s[0] != c;
      assert s[1..] == a[1..] + [c] + b;
      SplitAtFirst(a[1..], b, c);
      assert [a[0]] + a[1..] == a;
    }
  }

  /** A CRLF starts at position l of s. */
  predicate CRLFAt(s: string, l: nat) {
    l + 1 < |s| && s[l] == '\r' && s[l + 1] == '\n'
  }

  /** Position of the first CRLF in s, or |s| when there is none (std::search). */
  function FindCRLF(s: string): (k: nat)
    ensures k <= |s|
    ensures k < |s| ==> CRLFAt(s, k)
    ensures forall l :: 0 <= l < k ==> !CRLFAt(s, l)
  {
    if |s| < 2 then |s|
    else if CRLFAt(s, 0) then 0
    else
      var k := 1 + FindCRLF(s[1..]);
      assert forall l :: 1 <= l < |s| ==> CRLFAt(s, l) == CRLFAt(s[1..], l - 1);
      k
  }

  // ---------------------------------------------------------------------
  // Grammars.

  datatype RequestLineFields = RequestLineFields(httpMethod: string, path: string, version: string)

  /** `^([^ ]*) ([^ ]*) HTTP/([^ ]*)$`: exactly two spaces, the third token
      starting with "HTTP/". */
  function RequestLineParts(line: string): (r: Option<RequestLineFields>)
  {
    match SplitAt(line, ' ')
    case None => None
    case Some((m, rest)) =>
      match SplitAt(rest, ' ')
      case None => None
      case Some((p, tail)) =>
        if NoChar(tail, ' ') && |tail| >= 5 && tail[..5] == "HTTP/" then
          Some(RequestLineFields(m, p, tail[5..]))
        else None
  }

  /** Every accepted request line is method SP path SP "HTTP/" version with no
      space inside the three fields. */
  lemma RequestLineSound(line: string)
    requires RequestLineParts(line).Some?
    ensures var f := RequestLineParts(line).value;
      && line == f.httpMethod + " " + f.path + " HTTP/" + f.version
      && NoChar(f.httpMethod, ' ') && NoChar(f.path, ' ') && NoChar(f.version, ' ')
  {
    var m := SplitAt(line, ' ').value.0;
    var rest := SplitAt(line, ' ').value.1;
    var p := SplitAt(rest, ' ').value.0;
    var tail := SplitAt(rest, ' ').value.1;
    var f := RequestLineParts(line).value;
    assert f == RequestLineFields(m, p, tail[5..]);
    NoCharSuffix(tail, 5, ' ');
    JoinRequestLine(line, m, rest, p, tail);
  }

  lemma JoinRequestLine(line: string, m: string, rest: string, p: string, tail: string)
    requires line == m + [' '] + rest && rest == p + [' '] + tail
    requires |tail| >= 5 && tail[..5] == "HTTP/"
    ensures line == m + " " + p + " HTTP/" + tail[5..]
  {
    assert tail == "HTTP/" + tail[5..];
    assert " HTTP/" + tail[5..] == [' '] + tail;
  }

  lemma NoCharSuffix(s: string, i: nat, c: char)
    requires i <= |s| && NoChar(s, c)
    ensures NoChar(s[i..], c)
  {
    forall k | 0 <= k < |s| - i
      ensures s[i..][k] != c
    {
      assert s[i..][k] == s[i + k];
    }
  }

  /** Every such line is accepted, with its three fields. */
  lemma RequestLineComplete(m: string, p: string, v: string)
    requires NoChar(m, ' ') && NoChar(p, ' ') && NoChar(v, ' ')
    ensures RequestLineParts(m + " " + p + " HTTP/" + v) == Some(RequestLineFields(m, p, v))
  {
    var tail := "HTTP/" + v;
    var rest := p + [' '] + tail;
    SpellRequestLine(m, p, v);
    SplitAtFirst(m, rest, ' ');
    SplitAtFirst(p, tail, ' ');
    VersionTail(v);
  }

  lemma SpellRequestLine(m: string, p: string, v: string)
    ensures m + " " + p + " HTTP/" + v == m + [' '] + (p + [' '] + ("HTTP/" + v))
  {
    assert " HTTP/" + v == [' '] + ("HTTP/" + v);
  }

  lemma VersionTail(v: string)
    requires NoChar(v, ' ')
    ensures var tail := "HTTP/" + v; NoChar(tail, ' ') && tail[..5] == "HTTP/" && tail[5..] == v
  {
    var tail := "HTTP/" + v;
    forall k | 0 <= k < |tail|
      ensures tail[k] != ' '
    {
      if k >= 5 {
        assert tail[k] == v[k - 5];
      }
    }
  }

  /** `^([^:]*): ?(.*)$`: the name is the text before the first ':', one
      optional space is dropped, and the value may not hold CR or LF. */
  function HeaderParts(line: string): (r: Option<(string, string)>)
  {
    match SplitAt(line, ':')
    case None => None
    case Some((name, after)) =>
      var value := if |after| > 0 && after[0] == ' ' then after[1..] else after;
      if NoLineBreak(value) then Some((name, value)) else None
  }

  /** Every accepted header line is name ":" [SP] value, where the name holds
      no ':', the value no line break, and the space is present whenever the
      value itself starts with one. */
  lemma HeaderSound(line: string)
    requires HeaderParts(line).Some?
    ensures var (name, value) := HeaderParts(line).value;
      && NoChar(name, ':') && NoLineBreak(value)
      && (line == name + ": " + value || (line == name + ":" + value && (value == [] || value[0] != ' ')))
  {
    var (name, after) := SplitAt(line, ':').value;
    if |after| > 0 && after[0] == ' ' {
      assert after == " " + after[1..];
    }
  }

  /** Every such line is accepted. */
  lemma HeaderComplete(name: string, value: string)
    requires NoChar(name, ':') && NoLineBreak(value)
    ensures HeaderParts(name + ": " + value) == Some((name, value))
    ensures value == [] || value[0] != ' ' ==> HeaderParts(name + ":" + value) == Some((name, value))
  {
    assert name + ": " + value == name + [':'] + (" " + value);
    SplitAtFirst(name, " " + value, ':');
    assert (" " + value)[1..] == value;
    assert name + ":" + value == name + [':'] + value;
    SplitAtFirst(name, value, ':');
  }

  /** A line with no ':' is never a header. */
  lemma HeaderNeedsColon(line: string)
    requires NoChar(line, ':')
    ensures HeaderParts(line) == None
  {

  }

  /** ParsePath: "/" becomes "/index.html", a short page name gains ".html". */
  function MappedPath(path: string): (r: string)
  {
    if path == "/" then "/index.html"
    else if path in DefaultHtml then path + ".html"
    else path
  }

  /** The mapping leaves every other path alone and applying it twice changes
      nothing more. */
  lemma MappedPathIdempotent(path: string)
    ensures path != "/" && path !in DefaultHtml ==> MappedPath(path) == path
    ensures MappedPath(MappedPath(path)) == MappedPath(path)
  {
    if path in DefaultHtml {
      var r := path + ".html";
      assert |r| == |path| + 5;
      assert r[|r| - 5..] == ".html";
    }
  }

  // ---------------------------------------------------------------------
  // Character arithmetic of the percent rewrite.

  /** The value of a plain char used as an int on a platform with signed char. */
  function SignedByte(c: char): (v: int)
    ensures -128 <= v < 128
    ensures c as int < 128 ==> v == c as int
  {
    var b := c as int % 256;
    if b >= 128 then b - 256 else b
  }

  /** Storing an int through a char keeps its low eight bits. */
  function ByteChar(x: int): (c: char)
    ensures c as int < 256 && (c as int - x) % 256 == 0
  {
    (x % 256) as char
  }

  /** C++ integer division, which truncates toward zero. */
  function TruncDiv(a: int, b: int): int
    requires b > 0
  {
    if a >= 0 then a / b else -((-a) / b)
  }

  /** C++ remainder, whose sign follows the dividend. */
  function TruncRem(a: int, b: int): (r: int)
    requires b > 0
    ensures a == TruncDiv(a, b) * b + r
    ensures -b < r < b && (a >= 0 ==> r >= 0) && (a < 0 ==> r <= 0)
  {
    a - TruncDiv(a, b) * b
  }

  /** ConvertHex: 'A'-'F' and 'a'-'f' give 10-15; every other character gives
      its own code, so the decimal digits give 48-57 rather than 0-9. */
  function ConvertHex(ch: char): (v: int)
    ensures 'A' <= ch <= 'F' ==> v == ch as int - 'A' as int + 10
    ensures 'a' <= ch <= 'f' ==> v == ch as int - 'a' as int + 10
    ensures !('A' <= ch <= 'F') && !('a' <= ch <= 'f') ==> v == SignedByte(ch)
    ensures '0' <= ch <= '9' ==> v == ch as int && 48 <= v <= 57
    ensures -128 <= v < 128
  {
    if 'A' <= ch <= 'F' then ch as int - 'A' as int + 10
    else if 'a' <= ch <= 'f' then ch as int - 'a' as int + 10
    else SignedByte(ch)
  }

  // ---------------------------------------------------------------------
  // The urlencoded body splitter.

  datatype ScanResult = ScanResult(content: string, post: map<string, string>, undefined: bool)

  /**
   * The loop of ParseFromUrlencoded from position i, with j the start of the
   * current token and key the last key seen.  '=' ends a key, '&' ends a
   * value and stores it under the last key, '+' becomes a space in place,
   * and '%' overwrites the next two characters with the two decimal digits
   * (as chars) of ConvertHex(c[i+1]) * 16 + ConvertHex(c[i+2]).  A '%' with
   * fewer than two characters after it writes at or past the end of the
   * string, which the C++ standard leaves undefined: the scan stops there
   * with `undefined` set.  After the loop the trailing token is stored only
   * when it is non-empty and the last key is new.
   */
  function UrlScan(c: string, i: nat, j: nat, key: string, post: map<string, string>): (o: ScanResult)
    requires j <= i <= |c|
    ensures |o.content| == |c|
    ensures post.Keys <= o.post.Keys
    decreases |c| - i
  {
    if i == |c| then
      if key !in post && j < i then ScanResult(c, post[key := c[j..i]], false)
      else ScanResult(c, post, false)
    else if c[i] == '=' then UrlScan(c, i + 1, i + 1, c[j..i], post)
    else if c[i] == '+' then UrlScan(c[i := ' '], i + 1, j, key, post)
    else if c[i] == '%' then
      if i + 2 >= |c| then ScanResult(c, post, true)
      else
        var num := ConvertHex(c[i + 1]) * 16 + ConvertHex(c[i + 2]);
        var c' := c[i + 2 := ByteChar(TruncRem(num, 10) + '0' as int)][i + 1 := ByteChar(TruncDiv(num, 10) + '0' as int)];
        UrlScan(c', i + 1, j, key, post)
    else if c[i] == '&' then UrlScan(c, i + 1, i + 1, key, post[key := c[j..i]])
    else UrlScan(c, i + 1, j, key, post)
  }

  /** The '+'-to-space rewrite on its own. */
  function PlusToSpace(s: string): (r: string)
    ensures |r| == |s|
    ensures forall k :: 0 <= k < |s| ==> r[k] == (if s[k] == '+' then ' ' else s[k])
  {
    seq(|s|, k requires 0 <= k < |s| => if s[k] == '+' then ' ' else s[k])
  }

  /** Without a '%' from position i on, the splitter is defined and its
      only change to the body is turning each '+' from i on into a space. */
  lemma {:induction false} UrlScanWithoutPercent(c: string, i: nat, j: nat, key: string, post: map<string, string>)
    requires j <= i <= |c|
    requires forall k :: i <= k < |c| ==> c[k] != '%'
    ensures var o := UrlScan(c, i, j, key, post);
      && !o.undefined
      && forall k :: 0 <= k < |c| ==> o.content[k] == (if i <= k && c[k] == '+' then ' ' else c[k])
    decreases |c| - i
  {
    if i < |c| {
      if c[i] == '=' {
        UrlScanWithoutPercent(c, i + 1, i + 1, c[j..i], post);
      } else if c[i] == '&' {
        UrlScanWithoutPercent(c, i + 1, i + 1, key, post[key := c[j..i]]);
      } else if c[i] == '+' {
        UrlScanWithoutPercent(c[i := ' '], i + 1, j, key, post);
      } else {
        UrlScanWithoutPercent(c, i + 1, j, key, post);
      }
    }
  }

  /** A body without '%' comes back with exactly its '+' turned into spaces. */
  lemma UrlencodedWithoutPercent(c: string, post: map<string, string>)
    requires NoChar(c, '%')
    ensures !UrlScan(c, 0, 0, "", post).undefined
    ensures UrlScan(c, 0, 0, "", post).content == PlusToSpace(c)
  {
    UrlScanWithoutPercent(c, 0, 0, "", post);
  }

  /** The splitter never rewrites a position it has already passed. */
  lemma {:induction false} UrlScanKeepsPrefix(c: string, i: nat, j: nat, key: string, post: map<string, string>)
    requires j <= i <= |c|
    ensures UrlScan(c, i, j, key, post).content[..i] == c[..i]
    decreases |c| - i, 1
  {
    if i == |c| {
    } else if c[i] == '=' {
      UrlScanKeepsPrefix(c, i + 1, i + 1, c[j..i], post);
    } else if c[i] == '+' {
      var c' := c[i := ' '];
      assert UrlScan(c, i, j, key, post) == UrlScan(c', i + 1, j, key, post);
      UrlScanKeepsPrefix(c', i + 1, j, key, post);
      assert c'[..i + 1][..i] == c[..i];
    } else if c[i] == '%' {
      if i + 2 < |c| {
        UrlScanKeepsPrefixAtPercent(c, i, j, key, post);
      }
    } else if c[i] == '&' {
      UrlScanKeepsPrefix(c, i + 1, i + 1, key, post[key := c[j..i]]);
    } else {
      UrlScanKeepsPrefix(c, i + 1, j, key, post);
    }
  }

  /** The '%' step of UrlScanKeepsPrefix: the rewrite touches only the two
      positions after i. */
  lemma {:induction false} UrlScanKeepsPrefixAtPercent(c: string, i: nat, j: nat, key: string, post: map<string, string>)
    requires j <= i && i + 2 < |c| && c[i] == '%'
    ensures UrlScan(c, i, j, key, post).content[..i] == c[..i]
    decreases |c| - i, 0
  {
    var num := ConvertHex(c[i + 1]) * 16 + ConvertHex(c[i + 2]);
    var c' := c[i + 2 := ByteChar(TruncRem(num, 10) + '0' as int)][i + 1 := ByteChar(TruncDiv(num, 10) + '0' as int)];
    assert UrlScan(c, i, j, key, post) == UrlScan(c', i + 1, j, key, post);
    UrlScanKeepsPrefix(c', i + 1, j, key, post);
    assert c'[..i + 1][..i] == c[..i];
  }

  /** Positions from i to m that hold neither '+' nor '%' come out of the
      splitter as they went in. */
  lemma {:induction false} UrlScanLeavesPlain(c: string, i: nat, j: nat, key: string, post: map<string, string>, m: nat)
    requires j <= i <= m < |c|
    requires forall k :: i <= k <= m ==> c[k] != '+' && c[k] != '%'
    ensures UrlScan(c, i, j, key, post).content[..m + 1] == c[..m + 1]
    decreases m - i
  {
    if c[i] == '=' {
      if i < m { UrlScanLeavesPlain(c, i + 1, i + 1, c[j..i], post, m); }
      else { UrlScanKeepsPrefix(c, i + 1, i + 1, c[j..i], post); }
    } else if c[i] == '&' {
      if i < m { UrlScanLeavesPlain(c, i + 1, i + 1, key, post[key := c[j..i]], m); }
      else { UrlScanKeepsPrefix(c, i + 1, i + 1, key, post[key := c[j..i]]); }
    } else {
      if i < m { UrlScanLeavesPlain(c, i + 1, j, key, post, m); }
      else { UrlScanKeepsPrefix(c, i + 1, j, key, post); }
    }
  }

  /** A '%' with two characters after it is kept, and those two become the
      characters of the quotient and the remainder of ConvertHex(c[i+1]) * 16
      + ConvertHex(c[i+2]) by 10, each added to '0' (C++ division and
      remainder, then the conversion to char).  They stay so unless one of
      them is itself a '+' or a '%', which the following steps rewrite. */
  lemma UrlScanPercentDigits(c: string, i: nat, j: nat, key: string, post: map<string, string>)
    requires j <= i && i + 2 < |c| && c[i] == '%'
    requires var num := ConvertHex(c[i + 1]) * 16 + ConvertHex(c[i + 2]);
      var hi := ByteChar(TruncDiv(num, 10) + '0' as int);
      var lo := ByteChar(TruncRem(num, 10) + '0' as int);
      hi != '+' && hi != '%' && lo != '+' && lo != '%'
    ensures var num := ConvertHex(c[i + 1]) * 16 + ConvertHex(c[i + 2]);
      var o := UrlScan(c, i, j, key, post);
      o.content[..i + 1] == c[..i + 1]
      && o.content[i + 1] == ByteChar(TruncDiv(num, 10) + '0' as int)
      && o.content[i + 2] == ByteChar(TruncRem(num, 10) + '0' as int)
  {
    var num := ConvertHex(c[i + 1]) * 16 + ConvertHex(c[i + 2]);
    var c' := c[i + 2 := ByteChar(TruncRem(num, 10) + '0' as int)][i + 1 := ByteChar(TruncDiv(num, 10) + '0' as int)];
    assert UrlScan(c, i, j, key, post) == UrlScan(c', i + 1, j, key, post);
    UrlScanLeavesPlain(c', i + 1, j, key, post, i + 2);
    assert c'[..i + 3][..i + 1] == c[..i + 1];
  }

  /**
   * The final-pair rule.  Once no '=', '&' or '%' lies ahead of position i,
   * the only store left is the trailing token, from j to the end: it goes
   * under the last key exactly when that key is new and the token is not
   * empty.  The scan is then defined, and from i on it only turns each '+'
   * into a space.
   */
  lemma {:induction false} UrlScanFinalPair(c: string, i: nat, j: nat, key: string, post: map<string, string>)
    requires j <= i <= |c|
    requires forall k :: i <= k < |c| ==> c[k] != '=' && c[k] != '&' && c[k] != '%'
    ensures var o := UrlScan(c, i, j, key, post);
      && !o.undefined
      && o.post == (if key !in post && j < |c| then post[key := o.content[j..]] else post)
      && o.content[..i] == c[..i]
      && forall k :: i <= k < |c| ==> o.content[k] == (if c[k] == '+' then ' ' else c[k])
    decreases |c| - i
  {
    UrlScanKeepsPrefix(c, i, j, key, post);
    if i == |c| {
      assert c[j..i] == c[j..];
    } else {
      if c[i] == '+' {
        assert UrlScan(c, i, j, key, post) == UrlScan(c[i := ' '], i + 1, j, key, post);
        UrlScanFinalPair(c[i := ' '], i + 1, j, key, post);
      } else {
        assert UrlScan(c, i, j, key, post) == UrlScan(c, i + 1, j, key, post);
        UrlScanFinalPair(c, i + 1, j, key, post);
      }
    }
  }

  /** The position of the first '=' or '&' in s, or |s| when there is none. */
  function DelimAt(s: string): (k: nat)
    ensures k <= |s|
    ensures forall m :: 0 <= m < k ==> s[m] != '=' && s[m] != '&'
    ensures k < |s| ==> s[k] == '=' || s[k] == '&'
  {
    if s == [] || s[0] == '=' || s[0] == '&' then 0 else 1 + DelimAt(s[1..])
  }

  /**
   * A reference reading of a urlencoded body, token by token: the text up to
   * each '=' becomes the current key, the text up to each '&' is stored under
   * the current key (a later store overwrites an earlier one), and the text
   * after the last delimiter is stored only when it is not empty and the
   * current key is new.
   */
  function PairsFrom(s: string, key: string, post: map<string, string>): (r: map<string, string>)
    ensures post.Keys <= r.Keys
    decreases |s|
  {
    var k := DelimAt(s);
    if k == |s| then (if key !in post && s != [] then post[key := s] else post)
    else if s[k] == '=' then PairsFrom(s[k + 1..], s[..k], post)
    else PairsFrom(s[k + 1..], key, post[key := s[..k]])
  }

  /** A stretch without '+' is left as it is by the rewrite. */
  lemma PlainSlice(c: string, j: nat, i: nat)
    requires j <= i <= |c|
    requires forall k :: j <= k < i ==> c[k] != '+'
    ensures PlusToSpace(c)[j..i] == c[j..i]
  {
  }

  /** Turning one '+' into a space does not change the rewrite. */
  lemma PlusToSpaceOfSpace(c: string, i: nat)
    requires i < |c| && c[i] == '+'
    ensures PlusToSpace(c[i := ' ']) == PlusToSpace(c)
  {
  }

  /** The first delimiter of t is at d when none comes before d and one is at d
      (or d is the end). */
  lemma DelimAtIs(t: string, d: nat)
    requires d <= |t|
    requires forall m :: 0 <= m < d ==> t[m] != '=' && t[m] != '&'
    requires d < |t| ==> t[d] == '=' || t[d] == '&'
    ensures DelimAt(t) == d
  {
  }

  /** The reference reading of a last token with no delimiter in it. */
  lemma PairsAtEnd(c: string, j: nat, key: string, post: map<string, string>)
    requires j <= |c|
    requires forall k :: j <= k < |c| ==> c[k] != '=' && c[k] != '&' && c[k] != '+'
    ensures PairsFrom(PlusToSpace(c)[j..], key, post) == if key !in post && j < |c| then post[key := c[j..]] else post
  {
    var t := PlusToSpace(c)[j..];
    PlainSlice(c, j, |c|);
    assert t == c[j..];
    DelimAtIs(t, |t|);
  }

  /** One step of the reference reading, at the first delimiter d of t. */
  lemma PairsStep(t: string, d: nat, key: string, post: map<string, string>)
    requires d < |t| && (t[d] == '=' || t[d] == '&')
    requires forall m :: 0 <= m < d ==> t[m] != '=' && t[m] != '&'
    ensures PairsFrom(t, key, post)
            == if t[d] == '=' then PairsFrom(t[d + 1..], t[..d], post)
               else PairsFrom(t[d + 1..], key, post[key := t[..d]])
  {
    DelimAtIs(t, d);
  }

  /** The reference reading of a token that ends at the delimiter c[i]. */
  lemma PairsAtDelim(c: string, i: nat, j: nat, key: string, post: map<string, string>)
    requires j <= i < |c| && (c[i] == '=' || c[i] == '&')
    requires forall k :: j <= k < i ==> c[k] != '=' && c[k] != '&' && c[k] != '+'
    ensures PairsFrom(PlusToSpace(c)[j..], key, post)
            == if c[i] == '=' then PairsFrom(PlusToSpace(c)[i + 1..], c[j..i], post)
               else PairsFrom(PlusToSpace(c)[i + 1..], key, post[key := c[j..i]])
  {
    var t := PlusToSpace(c)[j..];
    var d := i - j;
    assert t[..d] == c[j..i] by { PlainSlice(c, j, i); }
    assert t[d] == c[i];
    assert t[d + 1..] == PlusToSpace(c)[i + 1..];
    PairsStep(t, d, key, post);
  }

  /** For a body without '%', the splitter's map from position i, with the
      current token starting at j, is the reference reading of what is left
      of the rewritten body from j on. */
  lemma {:induction false} UrlScanIsPairs(c: string, i: nat, j: nat, key: string, post: map<string, string>)
    requires j <= i <= |c|
    requires forall k :: i <= k < |c| ==> c[k] != '%'
    requires forall k :: j <= k < i ==> c[k] != '=' && c[k] != '&' && c[k] != '+'
    ensures UrlScan(c, i, j, key, post).post == PairsFrom(PlusToSpace(c)[j..], key, post)
    decreases |c| - i, 1
  {
    if i == |c| {
      PairsAtEnd(c, j, key, post);
      assert c[j..i] == c[j..];
    } else if c[i] == '=' || c[i] == '&' {
      UrlScanIsPairsAtDelim(c, i, j, key, post);
    } else if c[i] == '+' {
      UrlScanIsPairsAtPlus(c, i, j, key, post);
    } else {
      UrlScanIsPairsInToken(c, i, j, key, post);
    }
  }

  /** UrlScanIsPairs when c[i] ends the current token. */
  lemma {:induction false} UrlScanIsPairsAtDelim(c: string, i: nat, j: nat, key: string, post: map<string, string>)
    requires j <= i < |c| && (c[i] == '=' || c[i] == '&')
    requires forall k :: i <= k < |c| ==> c[k] != '%'
    requires forall k :: j <= k < i ==> c[k] != '=' && c[k] != '&' && c[k] != '+'
    ensures UrlScan(c, i, j, key, post).post == PairsFrom(PlusToSpace(c)[j..], key, post)
    decreases |c| - i, 0
  {
    PairsAtDelim(c, i, j, key, post);
    if c[i] == '=' {
      assert UrlScan(c, i, j, key, post) == UrlScan(c, i + 1, i + 1, c[j..i], post);
      UrlScanIsPairs(c, i + 1, i + 1, c[j..i], post);
    } else {
      assert UrlScan(c, i, j, key, post) == UrlScan(c, i + 1, i + 1, key, post[key := c[j..i]]);
      UrlScanIsPairs(c, i + 1, i + 1, key, post[key := c[j..i]]);
    }
  }

  /** UrlScanIsPairs when c[i] is a '+' inside the current token. */
  lemma {:induction false} UrlScanIsPairsAtPlus(c: string, i: nat, j: nat, key: string, post: map<string, string>)
    requires j <= i < |c| && c[i] == '+'
    requires forall k :: i <= k < |c| ==> c[k] != '%'
    requires forall k :: j <= k < i ==> c[k] != '=' && c[k] != '&' && c[k] != '+'
    ensures UrlScan(c, i, j, key, post).post == PairsFrom(PlusToSpace(c)[j..], key, post)
    decreases |c| - i, 0
  {
    var c' := c[i := ' '];
    assert UrlScan(c, i, j, key, post) == UrlScan(c', i + 1, j, key, post);
    assert UrlScan(c', i + 1, j, key, post).post == PairsFrom(PlusToSpace(c')[j..], key, post) by {
      assert forall k :: j <= k < i + 1 ==> c'[k] != '=' && c'[k] != '&' && c'[k] != '+';
      UrlScanIsPairs(c', i + 1, j, key, post);
    }
    assert PlusToSpace(c')[j..] == PlusToSpace(c)[j..] by { PlusToSpaceOfSpace(c, i); }
  }

  /** UrlScanIsPairs when c[i] is any other character of the current token. */
  lemma {:induction false} UrlScanIsPairsInToken(c: string, i: nat, j: nat, key: string, post: map<string, string>)
    requires j <= i < |c| && c[i] != '=' && c[i] != '&' && c[i] != '+'
    requires forall k :: i <= k < |c| ==> c[k] != '%'
    requires forall k :: j <= k < i ==> c[k] != '=' && c[k] != '&' && c[k] != '+'
    ensures UrlScan(c, i, j, key, post).post == PairsFrom(PlusToSpace(c)[j..], key, post)
    decreases |c| - i, 0
  {
    assert UrlScan(c, i, j, key, post) == UrlScan(c, i + 1, j, key, post);
    UrlScanIsPairs(c, i + 1, j, key, post);
  }

  /** A body with no '%' fills the post map exactly as the reference reading
      of its '+'-to-space rewrite says. */
  lemma UrlencodedPairs(c: string, post: map<string, string>)
    requires NoChar(c, '%')
    ensures UrlScan(c, 0, 0, "", post).post == PairsFrom(PlusToSpace(c), "", post)
  {
    UrlScanIsPairs(c, 0, 0, "", post);
  }

  /** ParseFromUrlencoded's effect on a request (an empty body is left alone). */
  function Urlencoded(r: Request): (r': Request)
  {
    if |r.content| == 0 then r
    else
      var o := UrlScan(r.content, 0, 0, "", r.post);
      r.(content := o.content, post := o.post, undefined := r.undefined || o.undefined)
  }

  /** "a=1&b=2" gives two pairs. */
  lemma UrlencodedTwoPairs()
    ensures UrlScan("a=1&b=2", 0, 0, "", map[]).post == map["a" := "1", "b" := "2"]
  {
    var s := "a=1&b=2";
    var e: map<string, string> := map[];
    assert s[0..1] == "a" && s[2..3] == "1" && s[4..5] == "b" && s[6..7] == "2";
    assert UrlScan(s, 0, 0, "", e) == UrlScan(s, 1, 0, "", e);
    assert UrlScan(s, 1, 0, "", e) == UrlScan(s, 2, 2, "a", e);
    assert UrlScan(s, 2, 2, "a", e) == UrlScan(s, 3, 2, "a", e);
    assert UrlScan(s, 3, 2, "a", e) == UrlScan(s, 4, 4, "a", map["a" := "1"]);
    assert UrlScan(s, 4, 4, "a", map["a" := "1"]) == UrlScan(s, 5, 4, "a", map["a" := "1"]);
    assert UrlScan(s, 5, 4, "a", map["a" := "1"]) == UrlScan(s, 6, 6, "b", map["a" := "1"]);
    assert UrlScan(s, 6, 6, "b", map["a" := "1"]) == UrlScan(s, 7, 6, "b", map["a" := "1"]);
  }

  /** A final pair whose key was already stored is dropped: "a=1&a=2" keeps a=1. */
  lemma UrlencodedRepeatedFinalKey()
    ensures UrlScan("a=1&a=2", 0, 0, "", map[]).post == map["a" := "1"]
  {
    var s := "a=1&a=2";
    var e: map<string, string> := map[];
    assert s[0..1] == "a" && s[2..3] == "1" && s[4..5] == "a";
    assert UrlScan(s, 0, 0, "", e) == UrlScan(s, 1, 0, "", e);
    assert UrlScan(s, 1, 0, "", e) == UrlScan(s, 2, 2, "a", e);
    assert UrlScan(s, 2, 2, "a", e) == UrlScan(s, 3, 2, "a", e);
    assert UrlScan(s, 3, 2, "a", e) == UrlScan(s, 4, 4, "a", map["a" := "1"]);
    assert UrlScan(s, 4, 4, "a", map["a" := "1"]) == UrlScan(s, 5, 4, "a", map["a" := "1"]);
    assert UrlScan(s, 5, 4, "a", map["a" := "1"]) == UrlScan(s, 6, 6, "a", map["a" := "1"]);
    assert UrlScan(s, 6, 6, "a", map["a" := "1"]) == UrlScan(s, 7, 6, "a", map["a" := "1"]);
  }

  /** '+' is stored as a space: "a=b+c" gives a = "b c". */
  lemma UrlencodedPlus()
    ensures UrlScan("a=b+c", 0, 0, "", map[]).post == map["a" := "b c"]
  {
    var s := "a=b+c";
    var s' := "a=b c";
    var e: map<string, string> := map[];
    assert s[0..1] == "a" && s'[2..5] == "b c" && s[3 := ' '] == s';
    assert UrlScan(s, 0, 0, "", e) == UrlScan(s, 1, 0, "", e);
    assert UrlScan(s, 1, 0, "", e) == UrlScan(s, 2, 2, "a", e);
    assert UrlScan(s, 2, 2, "a", e) == UrlScan(s, 3, 2, "a", e);
    assert UrlScan(s, 3, 2, "a", e) == UrlScan(s', 4, 2, "a", e);
    assert UrlScan(s', 4, 2, "a", e) == UrlScan(s', 5, 2, "a", e);
  }

  /** "%41" is not decoded to 'A': 52 * 16 + 49 = 881 is written back as the
      chars 48 + 88 and '1' after the '%', which stays. */
  lemma UrlencodedPercent()
    ensures UrlScan("a=%41", 0, 0, "", map[]).post == map["a" := ['%', 136 as char, '1']]
  {
    var s := "a=%41";
    var v: string := ['%', 136 as char, '1'];
    var s' := "a=" + v;
    var e: map<string, string> := map[];
    assert ConvertHex('4') * 16 + ConvertHex('1') == 881;
    assert TruncRem(881, 10) == 1 && TruncDiv(881, 10) == 88;
    assert s[4 := '1'][3 := 136 as char] == s';
    assert s[0..1] == "a" && s'[2..5] == v;
    assert UrlScan(s, 0, 0, "", e) == UrlScan(s, 1, 0, "", e);
    assert UrlScan(s, 1, 0, "", e) == UrlScan(s, 2, 2, "a", e);
    assert UrlScan(s, 2, 2, "a", e) == UrlScan(s', 3, 2, "a", e);
    assert UrlScan(s', 3, 2, "a", e) == UrlScan(s', 4, 2, "a", e);
    assert UrlScan(s', 4, 2, "a", e) == UrlScan(s', 5, 2, "a", e);
  }

  /** UserVerify: an empty name or password is refused before the database
      is consulted. */
  function UserVerify(name: string, pwd: string, isLogin: bool, db: UserDb): (ok: bool)
    ensures name == [] || pwd == [] ==> !ok
    ensures name != [] && pwd != [] ==> ok == db(name, pwd, isLogin)
  {
    if name == [] || pwd == [] then false else db(name, pwd, isLogin)
  }

  /** ParsePost: only a POST whose Content-Type is exactly the form type is
      split, and only the two form pages are redirected by the verdict.
      Reading the Content-Type and the two form fields through operator[]
      inserts an empty entry for each one that is missing. */
  function PostStep(r: Request, db: UserDb): (r': Request)
  {
    if r.httpMethod != "POST" then r
    else
      var h := if "Content-Type" in r.header then r.header else r.header["Content-Type" := ""];
      var r1 := r.(header := h);
      if h["Content-Type"] != FormType then r1
      else
        var r2 := Urlencoded(r1);
        if r2.path in DefaultHtmlTag then
          var tag := DefaultHtmlTag[r2.path];
          if tag == 0 || tag == 1 then
            var p1 := if "userName" in r2.post then r2.post else r2.post["userName" := ""];
            var p2 := if "passWord" in p1 then p1 else p1["passWord" := ""];
            var ok := UserVerify(p2["userName"], p2["passWord"], tag == 1, db);
            r2.(post := p2, path := if ok then "/welcome.html" else "/error.html")
          else r2
        else r2
  }

  /** What ParsePost promises about the path. */
  lemma PostStepRedirects(r: Request, db: UserDb)
    ensures r.httpMethod != "POST" ==> PostStep(r, db) == r
    ensures var r' := PostStep(r, db);
      r'.path != r.path ==>
        && r.httpMethod == "POST" && r.path in DefaultHtmlTag
        && "Content-Type" in r.header && r.header["Content-Type"] == FormType
        && r'.path in {"/welcome.html", "/error.html"}
    ensures var r' := PostStep(r, db);
      r.httpMethod == "POST" && r.path in DefaultHtmlTag && "Content-Type" in r.header && r.header["Content-Type"] == FormType ==>
        (r'.path == "/welcome.html" <==>
           UserVerify(r'.post["userName"], r'.post["passWord"], r.path == "/login.html", db))
  {
  }

  // ---------------------------------------------------------------------
  // One line of the machine.

  function RequestLineStep(r: Request, line: string): (r': Request)
  {
    match RequestLineParts(line)
    case None => r
    case Some(f) => r.(httpMethod := f.httpMethod, path := f.path, version := f.version, state := Header)
  }

  function HeaderStep(r: Request, line: string): (r': Request)
  {
    match HeaderParts(line)
    case None => r.(state := Content)
    case Some((name, value)) => r.(header := r.header[name := value])
  }

  function ContentStep(r: Request, line: string, db: UserDb): (r': Request)
  {
    PostStep(r.(content := line), db).(state := Finish)
  }

  /** The effect of one pass of Parse on a line, with `readable` the bytes
      that were readable before it was consumed. */
  function LineStep(r: Request, line: string, readable: nat, db: UserDb): (r': Request)
  {
    match r.state
    case RequestLine =>
      var r1 := RequestLineStep(r, line);
      r1.(path := MappedPath(r1.path))
    case Header =>
      var r1 := HeaderStep(r, line);
      if readable <= 2 then r1.(state := Finish) else r1
    case Content => ContentStep(r, line, db)
    case Finish => r
  }

  /** One pass, or None when Parse gives up: a first line that is not a
      request line. */
  function Interpret(db: UserDb): (Request, string, nat) -> Option<Request>
  {
    (r: Request, line: string, readable: nat) =>
      if r.state == RequestLine && RequestLineParts(line).None? then None
      else Some(LineStep(r, line, readable, db))
  }

  /** A line never sends the machine back to REQUEST_LINE, and Parse gives up
      only on a line read in REQUEST_LINE. */
  lemma InterpretLeavesRequestLine(db: UserDb, r: Request, line: string, readable: nat)
    ensures r.state != RequestLine ==> Interpret(db)(r, line, readable).Some?
    ensures Interpret(db)(r, line, readable).Some? ==> Interpret(db)(r, line, readable).value.state != RequestLine
  {
  }

  /** In REQUEST_LINE, a line is refused exactly when it is not a request line. */
  lemma InterpretRefusesBadRequestLine(db: UserDb, r: Request, line: string, readable: nat)
    requires r.state == RequestLine
    ensures Interpret(db)(r, line, readable).None? <==> RequestLineParts(line).None?
  {
  }

  /** In REQUEST_LINE, an accepted line has its fields stored and the path mapped. */
  lemma InterpretRequestLine(db: UserDb, r: Request, line: string, readable: nat)
    requires r.state == RequestLine
    ensures RequestLineParts(line).Some? ==>
      var f := RequestLineParts(line).value;
      Interpret(db)(r, line, readable) == Some(r.(httpMethod := f.httpMethod, path := MappedPath(f.path), version := f.version, state := Header))
  {
  }

  /** In HEADER, a line is stored or switches to CONTENT, and at most two
      readable bytes (the final CRLF) end the request. */
  lemma InterpretHeader(db: UserDb, r: Request, line: string, readable: nat)
    requires r.state == Header
    ensures Interpret(db)(r, line, readable) ==
      Some(if readable <= 2 then HeaderStep(r, line).(state := Finish) else HeaderStep(r, line))
  {
  }

  lemma InterpretContent(db: UserDb, r: Request, line: string, readable: nat)
    requires r.state == Content
    ensures Interpret(db)(r, line, readable) == Some(ContentStep(r, line, db))
  {
  }

  /** The shape of the machine: every accepted line leaves REQUEST_LINE
      behind, and past REQUEST_LINE every line is accepted. */
  ghost predicate MovesPastRequestLine(step: (Request, string, nat) -> Option<Request>) {
    forall r: Request, line: string, readable: nat ::
      && (r.state != RequestLine ==> step(r, line, readable).Some?)
      && (step(r, line, readable).Some? ==> step(r, line, readable).value.state != RequestLine)
  }

  lemma InterpretMovesPastRequestLine(db: UserDb)
    ensures MovesPastRequestLine(Interpret(db))
  {
    forall r: Request, line: string, readable: nat
      ensures (r.state != RequestLine ==> Interpret(db)(r, line, readable).Some?)
      ensures (Interpret(db)(r, line, readable).Some? ==> Interpret(db)(r, line, readable).value.state != RequestLine)
    {
      InterpretLeavesRequestLine(db, r, line, readable);
    }
  }

  datatype ParseOutcome = ParseOutcome(ok: bool, req: Request, rest: string)

  /** The loop of Parse over the readable bytes `rest`, interpreting each
      line with `step`: stop at FINISH or when nothing is readable; give up
      when step does; stop after a line that has no CRLF, without consuming
      it; otherwise consume the line and its CRLF and go on. */
  function ParseLoop(r: Request, rest: string, step: (Request, string, nat) -> Option<Request>): (o: ParseOutcome)
    decreases |rest|
  {
    if |rest| == 0 || r.state == Finish then ParseOutcome(true, r, rest)
    else
      var k := FindCRLF(rest);
      match step(r, rest[..k], |rest|)
      case None => ParseOutcome(false, r, rest)
      case Some(r') =>
        if k == |rest| then ParseOutcome(true, r', rest)
        else ParseLoop(r', rest[k + 2..], step)
  }

  /** Parse: nothing readable is a failure; otherwise the loop. */
  function ParseResult(r: Request, rest: string, step: (Request, string, nat) -> Option<Request>): (o: ParseOutcome)
    ensures |rest| == 0 ==> !o.ok && o.req == r && o.rest == rest
  {
    if |rest| == 0 then ParseOutcome(false, r, rest) else ParseLoop(r, rest, step)
  }

  /** Once past the request line, the loop cannot fail. */
  lemma {:induction false} ParseLoopPastRequestLine(r: Request, rest: string, step: (Request, string, nat) -> Option<Request>)
    requires MovesPastRequestLine(step) && r.state != RequestLine
    ensures ParseLoop(r, rest, step).ok
    decreases |rest|
  {
    if |rest| > 0 && r.state != Finish {
      var k := FindCRLF(rest);
      var next := step(r, rest[..k], |rest|);
      assert next.Some? && next.value.state != RequestLine;
      if k < |rest| {
        ParseLoopPastRequestLine(next.value, rest[k + 2..], step);
      }
    }
  }

  /** From REQUEST_LINE, the loop fails exactly when the first line is refused,
      and a failure changes nothing. */
  lemma ParseLoopFailsOnlyOnFirstLine(r: Request, rest: string, step: (Request, string, nat) -> Option<Request>)
    requires MovesPastRequestLine(step) && r.state == RequestLine && |rest| > 0
    ensures !ParseLoop(r, rest, step).ok <==> step(r, rest[..FindCRLF(rest)], |rest|).None?
    ensures !ParseLoop(r, rest, step).ok ==> ParseLoop(r, rest, step) == ParseOutcome(false, r, rest)
  {
    var k := FindCRLF(rest);
    var next := step(r, rest[..k], |rest|);
    if next.Some? {
      assert next.value.state != RequestLine;
      if k < |rest| {
        ParseLoopPastRequestLine(next.value, rest[k + 2..], step);
      }
    }
  }

  /** In REQUEST_LINE, step refuses exactly the lines that are not request lines. */
  ghost predicate RefusesOnlyBadRequestLines(step: (Request, string, nat) -> Option<Request>) {
    forall r: Request, line: string, readable: nat | r.state == RequestLine ::
      step(r, line, readable).None? <==> RequestLineParts(line).None?
  }

  lemma InterpretRefusesOnlyBadRequestLines(db: UserDb)
    ensures RefusesOnlyBadRequestLines(Interpret(db))
  {
    forall r: Request, line: string, readable: nat | r.state == RequestLine
      ensures Interpret(db)(r, line, readable).None? <==> RequestLineParts(line).None?
    {
      InterpretRefusesBadRequestLine(db, r, line, readable);
    }
  }

  /** From a fresh request, Parse fails exactly when nothing is readable or
      the first line is not a request line. */
  lemma ParseFailsOnlyOnRequestLine(r: Request, rest: string, step: (Request, string, nat) -> Option<Request>)
    requires MovesPastRequestLine(step) && RefusesOnlyBadRequestLines(step) && r.state == RequestLine
    ensures !ParseResult(r, rest, step).ok <==> |rest| == 0 || RequestLineParts(rest[..FindCRLF(rest)]).None?
  {
    if |rest| > 0 {
      ParseLoopFailsOnlyOnFirstLine(r, rest, step);
    }
  }

  /** A failed Parse leaves the request and the buffer as they were. */
  lemma ParseFailureChangesNothing(r: Request, rest: string, step: (Request, string, nat) -> Option<Request>)
    requires MovesPastRequestLine(step) && r.state == RequestLine
    ensures !ParseResult(r, rest, step).ok ==> ParseResult(r, rest, step).req == r && ParseResult(r, rest, step).rest == rest
  {
    if |rest| > 0 {
      ParseLoopFailsOnlyOnFirstLine(r, rest, step);
    }
  }

  /** tail is what is left of rest after dropping zero or more whole lines,
      each ended by CRLF. */
  predicate LeavesSuffix(rest: string, tail: string) {
    && |tail| <= |rest|
    && (forall i :: 0 <= i < |tail| ==> tail[i] == rest[|rest| - |tail| + i])
    && (|tail| == |rest| || (|tail| + 2 <= |rest| && CRLFAt(rest, |rest| - |tail| - 2)))
  }

  lemma LeavesSuffixAfterLine(rest: string, k: nat, tail: string)
    requires k < |rest| && CRLFAt(rest, k) && LeavesSuffix(rest[k + 2..], tail)
    ensures LeavesSuffix(rest, tail)
  {
    var t := rest[k + 2..];
    forall i | 0 <= i < |tail|
      ensures tail[i] == rest[|rest| - |tail| + i]
    {
      assert tail[i] == t[|t| - |tail| + i];
    }
    if |tail| < |t| {
      var d := |t| - |tail|;
      assert CRLFAt(t, d - 2);
      assert t[d - 2] == rest[k + d] && t[d - 1] == rest[k + d + 1];
    }
  }

  /** LeavesSuffix says that tail is a suffix of rest. */
  lemma LeavesSuffixIsSuffix(rest: string, tail: string)
    requires LeavesSuffix(rest, tail)
    ensures rest[|rest| - |tail|..] == tail
  {
  }

  /** Parse consumes whole lines: what it leaves is a suffix of the readable
      bytes, and whatever it consumed ends with CRLF. */
  lemma {:induction false} ParseLoopConsumesLines(r: Request, rest: string, step: (Request, string, nat) -> Option<Request>)
    ensures LeavesSuffix(rest, ParseLoop(r, rest, step).rest)
    decreases |rest|
  {
    if |rest| > 0 && r.state != Finish {
      var k := FindCRLF(rest);
      var next := step(r, rest[..k], |rest|);
      if next.Some? && k < |rest| {
        ParseLoopConsumesLines(next.value, rest[k + 2..], step);
        LeavesSuffixAfterLine(rest, k, ParseLoop(next.value, rest[k + 2..], step).rest);
      }
    }
  }

  /** A refused line stops the loop with a failure and changes nothing. */
  lemma ParseLoopRefusedLine(r: Request, rest: string, step: (Request, string, nat) -> Option<Request>)
    requires |rest| > 0 && r.state != Finish
    requires step(r, rest[..FindCRLF(rest)], |rest|).None?
    ensures ParseLoop(r, rest, step) == ParseOutcome(false, r, rest)
  {
  }

  /** A line without CRLF is interpreted but left in the buffer, and the loop stops. */
  lemma ParseLoopPartialLine(r: Request, rest: string, step: (Request, string, nat) -> Option<Request>, r': Request)
    requires |rest| > 0 && r.state != Finish && FindCRLF(rest) == |rest|
    requires step(r, rest[..FindCRLF(rest)], |rest|) == Some(r')
    ensures ParseLoop(r, rest, step) == ParseOutcome(true, r', rest)
  {
  }

  /** One complete line: interpreted, consumed with its CRLF, and the loop goes on. */
  lemma ParseLoopCompleteLine(r: Request, rest: string, step: (Request, string, nat) -> Option<Request>, k: nat, r': Request)
    requires |rest| > 0 && r.state != Finish && k == FindCRLF(rest) && k < |rest|
    requires step(r, rest[..k], |rest|) == Some(r')
    ensures ParseLoop(r, rest, step) == ParseLoop(r', rest[k + 2..], step)
  {
  }

  /** A line with no CR is found whole when it is followed by CRLF. */
  lemma FindCRLFAfterLine(line: string, tail: string)
    requires NoChar(line, '\r')
    ensures FindCRLF(line + "\r\n" + tail) == |line|
  {
    var s := line + "\r\n" + tail;
    assert CRLFAt(s, |line|);
  }

  /** A request line ended by CRLF stores its three fields, maps the path and
      moves on to HEADER with the bytes after it. */
  lemma ParseRequestLineThen(db: UserDb, r: Request, m: string, p: string, v: string, tail: string)
    requires r.state == RequestLine
    requires NoChar(m, ' ') && NoChar(p, ' ') && NoChar(v, ' ')
    requires NoChar(m + " " + p + " HTTP/" + v, '\r')
    ensures ParseLoop(r, m + " " + p + " HTTP/" + v + "\r\n" + tail, Interpret(db))
         == ParseLoop(r.(httpMethod := m, path := MappedPath(p), version := v, state := Header), tail, Interpret(db))
  {
    var line := m + " " + p + " HTTP/" + v;
    var s := line + "\r\n" + tail;
    FindCRLFAfterLine(line, tail);
    assert s[..|line|] == line && s[|line| + 2..] == tail;
    RequestLineComplete(m, p, v);
    InterpretRequestLine(db, r, line, |s|);
    ParseLoopCompleteLine(r, s, Interpret(db), |line|, r.(httpMethod := m, path := MappedPath(p), version := v, state := Header));
  }

  /** A header line ended by CRLF, with more bytes after it, is stored and
      the machine stays in HEADER. */
  lemma ParseHeaderThen(db: UserDb, r: Request, name: string, value: string, tail: string)
    requires r.state == Header
    requires NoChar(name, ':') && NoChar(name, '\r') && NoLineBreak(value)
    ensures ParseLoop(r, name + ": " + value + "\r\n" + tail, Interpret(db))
         == ParseLoop(r.(header := r.header[name := value]), tail, Interpret(db))
  {
    var line := name + ": " + value;
    var s := line + "\r\n" + tail;
    assert NoChar(line, '\r') by {
      forall k | 0 <= k < |line|
        ensures line[k] != '\r'
      {
        if k < |name| {
          assert line[k] == name[k];
        } else if k >= |name| + 2 {
          assert line[k] == value[k - |name| - 2];
        }
      }
    }
    FindCRLFAfterLine(line, tail);
    assert s[..|line|] == line && s[|line| + 2..] == tail;
    HeaderComplete(name, value);
    InterpretHeader(db, r, line, |s|);
    ParseLoopCompleteLine(r, s, Interpret(db), |line|, r.(header := r.header[name := value]));
  }

  /** The blank line in HEADER: with nothing after it the request is
      finished; otherwise the machine moves to CONTENT. */
  lemma ParseBlankLineThen(db: UserDb, r: Request, tail: string)
    requires r.state == Header
    ensures ParseLoop(r, "\r\n" + tail, Interpret(db))
         == if tail == [] then ParseOutcome(true, r.(state := Finish), [])
            else ParseLoop(r.(state := Content), tail, Interpret(db))
  {
    var s := "\r\n" + tail;
    FindCRLFAfterLine([], tail);
    assert s[..0] == [] && s[2..] == tail;
    assert HeaderParts([]) == None;
    InterpretHeader(db, r, [], |s|);
    var r' := if tail == [] then r.(state := Finish) else r.(state := Content);
    ParseLoopCompleteLine(r, s, Interpret(db), 0, r');
  }

  /** A request of one request line and one header line, ended by the blank
      line: its fields, mapped path and header are stored, the request is
      finished and every byte is consumed. */
  lemma ParseOneHeaderRequest(db: UserDb, m: string, p: string, v: string, name: string, value: string)
    requires NoChar(m, ' ') && NoChar(p, ' ') && NoChar(v, ' ')
    requires NoChar(m + " " + p + " HTTP/" + v, '\r')
    requires NoChar(name, ':') && NoChar(name, '\r') && NoLineBreak(value)
    ensures ParseResult(Initial, m + " " + p + " HTTP/" + v + "\r\n" + name + ": " + value + "\r\n" + "\r\n", Interpret(db))
         == ParseOutcome(true, Initial.(state := Finish, httpMethod := m, path := MappedPath(p), version := v, header := map[name := value]), [])
  {
    var r1 := Initial.(httpMethod := m, path := MappedPath(p), version := v, state := Header);
    var r2 := r1.(header := r1.header[name := value]);
    var third := "\r\n" + [];
    var second := name + ": " + value + "\r\n" + third;
    assert m + " " + p + " HTTP/" + v + "\r\n" + name + ": " + value + "\r\n" + "\r\n"
        == m + " " + p + " HTTP/" + v + "\r\n" + second;
    ParseRequestLineThen(db, Initial, m, p, v, second);
    ParseHeaderThen(db, r1, name, value, third);
    ParseBlankLineThen(db, r2, []);
  }

  // ---------------------------------------------------------------------
  // The parser object.

  class HttpRequest {
    var state: ParseState
    var httpMethod: string
    var path: string
    var version: string
    var content: string
    var header: map<string, string>
    var post: map<string, string>
    var undefined: bool

    function View(): Request
      reads this
    {
      Request(state, httpMethod, path, version, content, header, post, undefined)
    }

    constructor ()
      ensures View() == Initial
    {
      state, httpMethod, path, version, content := RequestLine, "", "", "", "";
      header, post, undefined := map[], map[], false;
    }

    /** Empties every field and restarts at REQUEST_LINE. */
    method Init()
      modifies this
      ensures View() == Initial
    {
      httpMethod, path, version, content := "", "", "", "";
      state := RequestLine;
      header := map[];
      post := map[];
      undefined := false;
    }

    /** GetPost: the value stored under key, or "" (the source asserts key != ""). */
    function GetPost(key: string): (v: string)
      reads this
      requires key != []
      ensures key in post ==> v == post[key]
      ensures key !in post ==> v == []
    {
      if key in post then post[key] else ""
    }

    method ParseRequestLine(line: string) returns (ok: bool)
      modifies this
      ensures ok <==> RequestLineParts(line).Some?
      ensures View() == RequestLineStep(old(View()), line)
    {
      var parts := RequestLineParts(line);
      if parts.Some? {
        httpMethod, path, version := parts.value.httpMethod, parts.value.path, parts.value.version;
        state := Header;
        return true;
      }
      return false;
    }

    method ParsePath()
      modifies this
      ensures View() == old(View()).(path := MappedPath(old(path)))
    {
      if path == "/" {
        path := "/index.html";
      } else if path in DefaultHtml {
        path := path + ".html";
      }
    }

    method ParseHeader(line: string)
      modifies this
      ensures View() == HeaderStep(old(View()), line)
    {
      var parts := HeaderParts(line);
      if parts.Some? {
        header := header[parts.value.0 := parts.value.1];
      } else {
        state := Content;
      }
    }

    method ParseContent(line: string, db: UserDb)
      modifies this
      ensures View() == ContentStep(old(View()), line, db)
    {
      content := line;
      ParsePost(db);
      state := Finish;
    }

    method ParsePost(db: UserDb)
      modifies this
      ensures View() == PostStep(old(View()), db)
    {
      if httpMethod == "POST" {
        if "Content-Type" !in header {
          header := header["Content-Type" := ""];
        }
        if header["Content-Type"] == FormType {
          ParseFromUrlencoded();
          if path in DefaultHtmlTag {
            var tag := DefaultHtmlTag[path];
            if tag == 0 || tag == 1 {
              var isLogin := tag == 1;
              if "userName" !in post {
                post := post["userName" := ""];
              }
              if "passWord" !in post {
                post := post["passWord" := ""];
              }
              if UserVerify(post["userName"], post["passWord"], isLogin, db) {
                path := "/welcome.html";
              } else {
                path := "/error.html";
              }
            }
          }
        }
      }
    }

    /** Splits the body in place into the post map (see UrlScan). */
    method ParseFromUrlencoded()
      modifies this
      ensures View() == Urlencoded(old(View()))
    {
      if |content| == 0 {
        return;
      }
      ghost var c0, p0 := content, post;
      var key: string := "";
      var n := |content|;
      var i: nat, j: nat := 0, 0;
      while i < n
        invariant |content| == n && j <= i <= n
        invariant UrlScan(content, i, j, key, post) == UrlScan(c0, 0, 0, "", p0)
        invariant old(View()).(content := content, post := post) == View()
        decreases n - i
      {
        var ch := content[i];
        if ch == '=' {
          key := content[j..i];
          j := i + 1;
        } else if ch == '+' {
          content := content[i := ' '];
        } else if ch == '%' {
          if i + 2 >= n {
            undefined := true;
            return;
          }
          var num := ConvertHex(content[i + 1]) * 16 + ConvertHex(content[i + 2]);
          content := content[i + 2 := ByteChar(TruncRem(num, 10) + '0' as int)];
          content := content[i + 1 := ByteChar(TruncDiv(num, 10) + '0' as int)];
        } else if ch == '&' {
          var value := content[j..i];
          j := i + 1;
          post := post[key := value];
        }
        i := i + 1;
      }
      if key !in post && j < i {
        post := post[key := content[j..i]];
      }
    }

    /** One pass of the loop of Parse on a line, `readable` being the bytes
        readable before it is consumed: false when the first line is not a
        request line. */
    method ParseLine(line: string, readable: nat, db: UserDb) returns (accepted: bool)
      modifies this
      ensures accepted <==> Interpret(db)(old(View()), line, readable).Some?
      ensures accepted ==> View() == Interpret(db)(old(View()), line, readable).value
      ensures !accepted ==> View() == old(View())
    {
      ghost var before := View();
      if state == RequestLine {
        InterpretRefusesBadRequestLine(db, before, line, readable);
        InterpretRequestLine(db, before, line, readable);
        var matched := ParseRequestLine(line);
        if !matched {
          return false;
        }
        ParsePath();
      } else if state == Header {
        InterpretHeader(db, before, line, readable);
        ParseHeader(line);
        if readable <= 2 {
          state := Finish;
        }
      } else if state == Content {
        InterpretContent(db, before, line, readable);
        ParseContent(line, db);
      }
      return true;
    }

    /**
     * Parse: interprets CRLF-terminated lines from the readable bytes of
     * buff until FINISH or until no bytes are left, consuming each line and
     * its CRLF.  A last line without CRLF is interpreted but not consumed.
     */
    method Parse(buff: Buffer, db: UserDb) returns (ok: bool)
      requires buff.Valid()
      modifies this, buff
      ensures buff.Valid() && buff.buf == old(buff.buf) && buff.writeIdx == old(buff.writeIdx)
      ensures var o := ParseResult(old(View()), old(buff.Contents()), Interpret(db));
        ok == o.ok && View() == o.req && buff.Contents() == o.rest
    {
      if buff.ReadableBytes() <= 0 {
        return false;
      }
      ghost var r0, s0 := View(), buff.Contents();
      while buff.ReadableBytes() > 0 && state != Finish
        invariant buff.Valid() && buff.buf == old(buff.buf) && buff.writeIdx == old(buff.writeIdx)
        invariant ParseLoop(View(), buff.Contents(), Interpret(db)) == ParseLoop(r0, s0, Interpret(db))
        decreases buff.ReadableBytes()
      {
        var rest := buff.buf[buff.readIdx..buff.writeIdx];
        assert rest == buff.Contents();
        var lineEnd := FindCRLF(rest);
        var line := rest[..lineEnd];
        ghost var before := View();
        var accepted := ParseLine(line, |rest|, db);
        if !accepted {
          ParseLoopRefusedLine(before, rest, Interpret(db));
          return false;
        }
        if lineEnd == |rest| {
          ParseLoopPartialLine(before, rest, Interpret(db), View());
          return true;
        }
        ParseLoopCompleteLine(before, rest, Interpret(db), lineEnd, View());
        buff.RetrieveUntil(buff.Peek() + lineEnd + 2);
        assert buff.Contents() == rest[lineEnd + 2..];
      }
      return true;
    }
  }
}
