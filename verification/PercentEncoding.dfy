/** The request signer's text: percent-encoding of UTF-8 bytes (sections 2.1 and 2.3 of
    RFC 3986), encoding of a path by segments, and the canonical query string. */
module PercentEncoding {
  import opened Numbers
  import opened Options
  import opened Text

  /** A parameter's encoded key and value. */
  type Pair = (string, string)

  // ---- uri_encode ---------------------------------------------------------------------------

  predicate IsUnreserved(c: char)
  {
    'A' <= c <= 'Z' || 'a' <= c <= 'z' || '0' <= c <= '9' || c == '-' || c == '_' || c == '.' || c == '~'
  }

  /** One digit of `{byte:02X}`. */
  function HexDigit(n: int): char
    requires 0 <= n < 16
  {
    if n < 10 then '0' + n as char else 'A' + (n - 10) as char
  }

  function EncodeByte(b: byte): string
  {
    if IsUnreserved(b as char) then [b as char] else ['%', HexDigit(b / 16), HexDigit(b % 16)]
  }

  function UriEncode(value: seq<byte>): string
  {
    if value == [] then "" else EncodeByte(value[0]) + UriEncode(value[1..])
  }

  // ---- an independent decoder ---------------------------------------------------------------

  function HexValue(c: char): Option<int>
  {
    if '0' <= c <= '9' then Some(c as int - '0' as int)
    else if 'A' <= c <= 'F' then Some(c as int - 'A' as int + 10)
    else if 'a' <= c <= 'f' then Some(c as int - 'a' as int + 10)
    else None
  }

  /** A percent sign and two hexadecimal digits stand for one byte; other ASCII characters
      stand for themselves. */
  function Decode(s: string): Option<seq<byte>>
    decreases |s|
  {
    if s == "" then Some([])
    else if s[0] == '%' then
      if |s| < 3 || HexValue(s[1]).None? || HexValue(s[2]).None? then None
      else
        match Decode(s[3..])
        case None => None
        case Some(rest) => DecodedByte(HexValue(s[1]).value * 16 + HexValue(s[2]).value, rest)
    else if s[0] as int >= 128 then None
    else
      match Decode(s[1..])
      case None => None
      case Some(rest) => Some([s[0] as int] + rest)
  }

  function DecodedByte(b: int, rest: seq<byte>): Option<seq<byte>>
  {
    if 0 <= b < 256 then Some([b] + rest) else None
  }

  lemma HexRoundTrip(n: int)
    requires 0 <= n < 16
    ensures HexValue(HexDigit(n)) == Some(n)
    ensures IsUnreserved(HexDigit(n))
  {
  }

  /** Decoding undoes encoding, for every byte string. */
  lemma {:induction false} DecodeEncode(value: seq<byte>)
    ensures Decode(UriEncode(value)) == Some(value)
  {
    if value != [] {
      var b := value[0];
      var s := UriEncode(value);
      DecodeEncode(value[1..]);
      assert value == [b] + value[1..];
      if IsUnreserved(b as char) {
        assert s[0] as int == b;
        assert s[1..] == UriEncode(value[1..]);
      } else {
        HexRoundTrip(b / 16);
        HexRoundTrip(b % 16);
        assert s[0] == '%' && s[1] == HexDigit(b / 16) && s[2] == HexDigit(b % 16);
        assert s[3..] == UriEncode(value[1..]);
        assert b / 16 * 16 + b % 16 == b;
        assert Decode(s) == DecodedByte(b, value[1..]);
      }
    }
  }

  /** Letters, digits, hyphen, period, underscore and tilde stand for themselves, and only they do. */
  lemma UnreservedStays(b: byte)
    ensures UriEncode([b]) == [b as char]
       <==> 0x41 <= b <= 0x5A || 0x61 <= b <= 0x7A || 0x30 <= b <= 0x39
            || b == 0x2D || b == 0x2E || b == 0x5F || b == 0x7E
    ensures UriEncode([b]) != [b as char] ==> |UriEncode([b])| == 3 && UriEncode([b])[0] == '%'
  {
    assert [b][1..] == [];
    assert UriEncode([b]) == EncodeByte(b) + "";
  }

  lemma {:induction false} EncodedByteByByte(a: seq<byte>, b: seq<byte>)
    ensures UriEncode(a + b) == UriEncode(a) + UriEncode(b)
  {
    if a == [] {
      assert a + b == b && UriEncode(a) == "";
    } else {
      EncodedByteByByte(a[1..], b);
      assert (a + b)[1..] == a[1..] + b;
      Prepended(EncodeByte(a[0]), UriEncode(a[1..]), UriEncode(b));
    }
  }

  lemma Prepended(a: string, b: string, c: string)
    ensures a + (b + c) == a + b + c
  {
  }

  predicate IsUpperHex(c: char)
  {
    '0' <= c <= '9' || 'A' <= c <= 'F'
  }

  /** A percent sign at `i` opens a triplet; anything else there is a letter, digit or mark. */
  predicate EncodedAt(s: string, i: nat)
    requires i < |s|
  {
    if s[i] == '%' then i + 2 < |s| && IsUpperHex(s[i + 1]) && IsUpperHex(s[i + 2]) else IsUnreserved(s[i])
  }

  /** Encoded text consists of unreserved characters and of percent signs, each followed by two
      upper-case hexadecimal digits. */
  lemma {:induction false} EncodedAlphabet(value: seq<byte>)
    ensures forall i :: 0 <= i < |UriEncode(value)| ==> EncodedAt(UriEncode(value), i)
  {
    if value != [] {
      EncodedAlphabet(value[1..]);
      var head, rest := EncodeByte(value[0]), UriEncode(value[1..]);
      forall i | 0 <= i < |head + rest| ensures EncodedAt(head + rest, i) {
        if i < |head| {
          HexDigitIsUpper(value[0] / 16);
          HexDigitIsUpper(value[0] % 16);
        } else {
          assert EncodedAt(rest, i - |head|);
        }
      }
    }
  }

  /** The digits of a triplet are themselves unreserved. */
  lemma HexDigitIsUpper(n: int)
    requires 0 <= n < 16
    ensures IsUpperHex(HexDigit(n)) && IsUnreserved(HexDigit(n))
  {
  }

  lemma EncodedHasNoSeparator(value: seq<byte>)
    ensures '/' !in UriEncode(value) && '&' !in UriEncode(value) && '=' !in UriEncode(value)
  {
    EncodedAlphabet(value);
    var s := UriEncode(value);
    forall i | 0 <= i < |s| ensures s[i] != '/' && s[i] != '&' && s[i] != '=' {
      assert EncodedAt(s, i);
    }
  }

  // ---- uri_encode_path ------------------------------------------------------------------------

  const SLASH: byte := 47

  function EncodeAll(parts: seq<seq<byte>>): (r: seq<string>)
    ensures |r| == |parts|
    ensures forall i :: 0 <= i < |parts| ==> r[i] == UriEncode(parts[i])
  {
    if parts == [] then [] else [UriEncode(parts[0])] + EncodeAll(parts[1..])
  }

  function UriEncodePath(path: seq<byte>): string
  {
    Join(EncodeAll(Split(path, SLASH)), '/')
  }

  /** An encoded path has the slashes of the path, and its segments decode to the path's
      segments one by one. */
  lemma UriEncodePathKeepsSegments(path: seq<byte>)
    ensures var segments := Split(UriEncodePath(path), '/');
      && |segments| == |Split(path, 0x2F)|
      && (forall i :: 0 <= i < |segments| ==> Decode(segments[i]) == Some(Split(path, 0x2F)[i]))
  {
    var parts := Split(path, SLASH);
    forall i | 0 <= i < |parts| ensures '/' !in EncodeAll(parts)[i] {
      EncodedHasNoSeparator(parts[i]);
    }
    SplitJoin(EncodeAll(parts), '/');
    forall i | 0 <= i < |parts| ensures Decode(EncodeAll(parts)[i]) == Some(parts[i]) {
      DecodeEncode(parts[i]);
    }
  }

  /** Distinct object keys have distinct canonical paths. */
  lemma UriEncodePathInjective(a: seq<byte>, b: seq<byte>)
    requires UriEncodePath(a) == UriEncodePath(b)
    ensures a == b
  {
    UriEncodePathKeepsSegments(a);
    UriEncodePathKeepsSegments(b);
    var pa, pb := Split(a, SLASH), Split(b, SLASH);
    forall i | 0 <= i < |pa| ensures pa[i] == pb[i] {
      assert Decode(Split(UriEncodePath(a), '/')[i]) == Some(pa[i]);
    }
    assert pa == pb;
    JoinSplit(a, SLASH);
    JoinSplit(b, SLASH);
  }

  // ---- the order of encoded parameters ----------------------------------------------------------

  lemma {:induction false} LexIrreflexive(a: string)
    ensures !Lex(a, a)
  {
    if a != "" {
      LexIrreflexive(a[1..]);
    }
  }

  lemma {:induction false} LexTransitive(a: string, b: string, c: string)
    requires Lex(a, b) && Lex(b, c)
    ensures Lex(a, c)
  {
    if a != "" && a[0] == b[0] && b[0] == c[0] {
      LexTransitive(a[1..], b[1..], c[1..]);
    }
  }

  lemma {:induction false} LexTotal(a: string, b: string)
    ensures Lex(a, b) || a == b || Lex(b, a)
  {
    if a != "" && b != "" && a[0] == b[0] {
      LexTotal(a[1..], b[1..]);
      assert a == [a[0]] + a[1..] && b == [b[0]] + b[1..];
    }
  }

  /** The order of pairs of strings: by key, then by value. */
  predicate PairLess(a: Pair, b: Pair)
  {
    Lex(a.0, b.0) || (a.0 == b.0 && Lex(a.1, b.1))
  }

  lemma PairOrder(a: Pair, b: Pair, c: Pair)
    ensures !PairLess(a, a)
    ensures PairLess(a, b) && PairLess(b, c) ==> PairLess(a, c)
    ensures PairLess(a, b) || a == b || PairLess(b, a)
  {
    LexIrreflexive(a.0);
    LexIrreflexive(a.1);
    LexTotal(a.0, b.0);
    LexTotal(a.1, b.1);
    if PairLess(a, b) && PairLess(b, c) {
      if Lex(a.0, b.0) && Lex(b.0, c.0) {
        LexTransitive(a.0, b.0, c.0);
      } else if a.0 == b.0 == c.0 {
        LexTransitive(a.1, b.1, c.1);
      }
    }
  }

  /** Up to here the texts agree, and here the first ends or has the smaller character. */
  predicate DiffersAt(a: string, b: string, i: nat)
  {
    i <= |a| && i < |b| && a[..i] == b[..i] && (i == |a| || a[i] < b[i])
  }

  ghost predicate Precedes(a: string, b: string)
  {
    exists i: nat :: DiffersAt(a, b, i)
  }

  lemma DiffersBehindHead(a: string, b: string, i: nat)
    requires a != "" && b != "" && a[0] == b[0]
    ensures DiffersAt(a, b, i + 1) <==> DiffersAt(a[1..], b[1..], i)
    ensures !DiffersAt(a, b, 0)
  {
    if i + 1 <= |a| && i + 1 < |b| {
      assert a[..i + 1] == [a[0]] + a[1..][..i] && b[..i + 1] == [b[0]] + b[1..][..i];
      assert a[1..][..i] == a[..i + 1][1..] && b[1..][..i] == b[..i + 1][1..];
    }
  }

  lemma PrecedesBehindHead(a: string, b: string)
    requires a != "" && b != "" && a[0] == b[0]
    ensures Precedes(a, b) <==> Precedes(a[1..], b[1..])
  {
    if Precedes(a[1..], b[1..]) {
      var i: nat :| DiffersAt(a[1..], b[1..], i);
      DiffersBehindHead(a, b, i);
    }
    if Precedes(a, b) {
      var i: nat :| DiffersAt(a, b, i);
      DiffersBehindHead(a, b, if i > 0 then i - 1 else 0);
    }
  }

  lemma AgreeAtHead(a: string, b: string, i: nat)
    ensures i > 0 && DiffersAt(a, b, i) ==> a != "" && b != "" && a[0] == b[0]
  {
    if i > 0 && DiffersAt(a, b, i) {
      assert a[..i][0] == a[0] && b[..i][0] == b[0];
    }
  }

  lemma PrecedesAtHead(a: string, b: string)
    requires a == "" || b == "" || a[0] != b[0]
    ensures Precedes(a, b) <==> b != "" && (a == "" || a[0] < b[0])
  {
    if Precedes(a, b) {
      var i: nat :| DiffersAt(a, b, i);
      AgreeAtHead(a, b, i);
    }
    if b != "" && (a == "" || a[0] < b[0]) {
      assert DiffersAt(a, b, 0);
    }
  }

  /** The recursive order of texts is the lexicographic one. */
  lemma {:induction false} LexIff(a: string, b: string)
    ensures Lex(a, b) <==> Precedes(a, b)
  {
    if a != "" && b != "" && a[0] == b[0] {
      LexIff(a[1..], b[1..]);
      PrecedesBehindHead(a, b);
    } else {
      PrecedesAtHead(a, b);
    }
  }

  /** Parameters are ordered by key first, and by value where the keys agree. */
  lemma PairLessIff(a: Pair, b: Pair)
    ensures PairLess(a, b) <==> Precedes(a.0, b.0) || (a.0 == b.0 && Precedes(a.1, b.1))
  {
    LexIff(a.0, b.0);
    LexIff(a.1, b.1);
  }

  ghost predicate IsSorted(s: seq<Pair>)
  {
    forall i, j :: 0 <= i < j < |s| ==> !PairLess(s[j], s[i])
  }

  /** A sorted sequence with `x` put in after every element not greater than it. */
  function Insert(s: seq<Pair>, x: Pair): seq<Pair>
  {
    if s == [] then [x]
    else if PairLess(x, s[|s| - 1]) then Insert(s[..|s| - 1], x) + [s[|s| - 1]]
    else s + [x]
  }

  function Sorted(s: seq<Pair>): seq<Pair>
  {
    if s == [] then [] else Insert(Sorted(s[..|s| - 1]), s[|s| - 1])
  }

  lemma {:induction false} InsertAddsOne(s: seq<Pair>, x: Pair)
    ensures multiset(Insert(s, x)) == multiset(s) + multiset{x}
  {
    if s != [] {
      assert s == s[..|s| - 1] + [s[|s| - 1]];
      InsertAddsOne(s[..|s| - 1], x);
    }
  }

  lemma AppendKeepsOrder(s: seq<Pair>, last: Pair)
    requires IsSorted(s) && forall i :: 0 <= i < |s| ==> !PairLess(last, s[i])
    ensures IsSorted(s + [last])
  {
  }

  lemma {:induction false} InsertKeepsOrder(s: seq<Pair>, x: Pair)
    requires IsSorted(s)
    ensures multiset(Insert(s, x)) == multiset(s) + multiset{x}
    ensures IsSorted(Insert(s, x))
  {
    InsertAddsOne(s, x);
    if s != [] {
      var init, last := s[..|s| - 1], s[|s| - 1];
      if PairLess(x, last) {
        InsertKeepsOrder(init, x);
        InsertedAreBelow(init, x, last);
        AppendKeepsOrder(Insert(init, x), last);
      } else {
        forall i | 0 <= i < |s| ensures !PairLess(x, s[i]) {
          PairOrder(x, s[i], last);
          PairOrder(s[i], last, x);
          PairOrder(last, s[i], x);
        }
        AppendKeepsOrder(s, x);
      }
    }
  }

  lemma InsertedAreBelow(init: seq<Pair>, x: Pair, last: Pair)
    requires PairLess(x, last) && forall i :: 0 <= i < |init| ==> !PairLess(last, init[i])
    ensures forall i :: 0 <= i < |Insert(init, x)| ==> !PairLess(last, Insert(init, x)[i])
  {
    InsertAddsOne(init, x);
    PairOrder(x, last, x);
    var r := Insert(init, x);
    forall i | 0 <= i < |r| ensures !PairLess(last, r[i]) {
      assert r[i] in multiset(r);
      assert r[i] == x || r[i] in init;
    }
  }

  lemma EntriesWithLast(s: seq<Pair>)
    requires s != []
    ensures multiset(s) == multiset(s[..|s| - 1]) + multiset{s[|s| - 1]}
  {
    assert s == s[..|s| - 1] + [s[|s| - 1]];
  }

  lemma {:induction false} SortedIsSortedPermutation(s: seq<Pair>)
    ensures multiset(Sorted(s)) == multiset(s)
    ensures IsSorted(Sorted(s))
  {
    if s == [] {
      assert Sorted(s) == [];
    } else {
      EntriesWithLast(s);
      SortedIsSortedPermutation(s[..|s| - 1]);
      InsertKeepsOrder(Sorted(s[..|s| - 1]), s[|s| - 1]);
    }
  }

  lemma GreatestAgree(a: seq<Pair>, b: seq<Pair>)
    requires IsSorted(a) && IsSorted(b) && multiset(a) == multiset(b) && a != [] && b != []
    ensures a[|a| - 1] == b[|b| - 1]
  {
    var x, y := a[|a| - 1], b[|b| - 1];
    assert x in multiset(b) && y in multiset(a);
    var i :| 0 <= i < |b| && b[i] == x;
    var j :| 0 <= j < |a| && a[j] == y;
    PairOrder(x, y, x);
  }

  lemma DropGreatest(a: seq<Pair>)
    requires IsSorted(a) && a != []
    ensures IsSorted(a[..|a| - 1]) && a == a[..|a| - 1] + [a[|a| - 1]]
    ensures multiset(a[..|a| - 1]) == multiset(a) - multiset{a[|a| - 1]}
  {
    assert a == a[..|a| - 1] + [a[|a| - 1]];
  }

  /** A multiset has one sorted listing. */
  lemma {:induction false} SortedListingIsUnique(a: seq<Pair>, b: seq<Pair>)
    requires IsSorted(a) && IsSorted(b) && multiset(a) == multiset(b)
    ensures a == b
    decreases |a|
  {
    assert |a| == |multiset(a)| == |multiset(b)| == |b|;
    if a != [] {
      GreatestAgree(a, b);
      DropGreatest(a);
      DropGreatest(b);
      SortedListingIsUnique(a[..|a| - 1], b[..|b| - 1]);
    }
  }

  // ---- sorting the vector in place ---------------------------------------------------------------

  /** `encoded.sort()` */
  method SortPairs(a: array<Pair>)
    modifies a
    ensures a[..] == Sorted(old(a[..]))
  {
    ghost var s := a[..];
    for n := 0 to a.Length
      invariant a[..] == Sorted(s[..n]) + s[n..]
      invariant |Sorted(s[..n])| == n
    {
      SortStep(a[..], s, n);
      assert a[..][..n] == a[..n] && a[..][n + 1..] == a[n + 1..];
      SinkLast(a, n);
    }
    assert s[..a.Length] == s;
  }

  lemma SortStep(cur: seq<Pair>, s: seq<Pair>, n: nat)
    requires n < |s| && |Sorted(s[..n])| == n && cur == Sorted(s[..n]) + s[n..]
    ensures Insert(cur[..n], cur[n]) + cur[n + 1..] == Sorted(s[..n + 1]) + s[n + 1..]
    ensures |Sorted(s[..n + 1])| == n + 1
  {
    assert s[..n + 1][..n] == s[..n];
    assert cur[..n] == Sorted(s[..n]) && cur[n + 1..] == s[n + 1..];
    SortedIsSortedPermutation(s[..n + 1]);
    assert |Sorted(s[..n + 1])| == |multiset(Sorted(s[..n + 1]))| == |multiset(s[..n + 1])|;
  }

  /** The vector while element `x`, taken from place `n`, stands at place `j`. */
  ghost function Sinking(s: seq<Pair>, n: nat, j: nat, x: Pair): seq<Pair>
    requires j <= n < |s|
  {
    s[..j] + [x] + s[j..n] + s[n + 1..]
  }

  lemma SinkStep(s: seq<Pair>, n: nat, j: nat, x: Pair)
    requires 0 < j <= n < |s|
    ensures var t := Sinking(s, n, j, x);
            t[j - 1] == s[j - 1] && t[j := t[j - 1]][j - 1 := x] == Sinking(s, n, j - 1, x)
  {
  }

  lemma InsertStep(s: seq<Pair>, n: nat, j: nat, x: Pair)
    requires 0 < j <= n < |s| && PairLess(x, s[j - 1])
    ensures Insert(s[..j], x) + s[j..n] == Insert(s[..j - 1], x) + s[j - 1..n]
  {
    assert s[..j][..j - 1] == s[..j - 1];
    assert s[j - 1..n] == [s[j - 1]] + s[j..n];
  }

  /** Moves element `n` down to its place among the sorted elements before it. */
  method SinkLast(a: array<Pair>, n: nat)
    requires n < a.Length
    modifies a
    ensures a[..] == Insert(old(a[..n]), old(a[n])) + old(a[n + 1..])
  {
    ghost var s := a[..];
    var x := a[n];
    var j := n;
    while j > 0 && PairLess(x, a[j - 1])
      invariant 0 <= j <= n
      invariant a[..] == Sinking(s, n, j, x)
      invariant Insert(s[..n], x) == Insert(s[..j], x) + s[j..n]
    {
      SinkStep(s, n, j, x);
      InsertStep(s, n, j, x);
      a[j] := a[j - 1];
      a[j - 1] := x;
      j := j - 1;
    }
    SinkEnds(s, n, j, x);
  }

  lemma SinkEnds(s: seq<Pair>, n: nat, j: nat, x: Pair)
    requires j <= n < |s|
    requires j == 0 || !PairLess(x, Sinking(s, n, j, x)[j - 1])
    ensures Sinking(s, n, j, x) == Insert(s[..j], x) + s[j..n] + s[n + 1..]
  {
    if j > 0 {
      assert Sinking(s, n, j, x)[j - 1] == s[..j][j - 1];
    }
  }

  // ---- canonical_query_string ----------------------------------------------------------------------

  type Param = (seq<byte>, seq<byte>)

  function EncodePair(p: Param): Pair
  {
    (UriEncode(p.0), UriEncode(p.1))
  }

  function EncodePairs(params: seq<Param>): (r: seq<Pair>)
    ensures |r| == |params|
    ensures forall i :: 0 <= i < |params| ==> r[i] == EncodePair(params[i])
  {
    seq(|params|, i requires 0 <= i < |params| => EncodePair(params[i]))
  }

  function RenderPairs(pairs: seq<Pair>): (r: seq<string>)
    ensures |r| == |pairs|
    ensures forall i :: 0 <= i < |pairs| ==> r[i] == pairs[i].0 + "=" + pairs[i].1
  {
    seq(|pairs|, i requires 0 <= i < |pairs| => pairs[i].0 + "=" + pairs[i].1)
  }

  function CanonicalQuery(params: seq<Param>): string
  {
    Join(RenderPairs(Sorted(EncodePairs(params))), '&')
  }

  /** `canonical_query_string` */
  method CanonicalQueryString(params: seq<Param>) returns (query: string)
    ensures query == CanonicalQuery(params)
  {
    var encoded := new Pair[|params|](i requires 0 <= i < |params| => EncodePair(params[i]));
    assert encoded[..] == EncodePairs(params);
    SortPairs(encoded);
    query := Join(RenderPairs(encoded[..]), '&');
  }

  /** One `key=value` piece, decoded. */
  function ParsePair(piece: string): Option<Param>
  {
    var kv := Split(piece, '=');
    if |kv| != 2 || Decode(kv[0]).None? || Decode(kv[1]).None? then None
    else Some((Decode(kv[0]).value, Decode(kv[1]).value))
  }

  function ParsePairs(pieces: seq<string>): Option<seq<Param>>
  {
    if pieces == [] then Some([])
    else if ParsePair(pieces[0]).None? || ParsePairs(pieces[1..]).None? then None
    else Some([ParsePair(pieces[0]).value] + ParsePairs(pieces[1..]).value)
  }

  /** A query string split on '&', each piece on '=', and both sides percent-decoded. */
  function ParseQuery(query: string): Option<seq<Param>>
  {
    ParsePairs(Split(query, '&'))
  }

  lemma RemoveParam(params: seq<Param>, i: nat) returns (rest: seq<Param>)
    requires i < |params|
    ensures |rest| == |params| - 1
    ensures multiset(params) == multiset(rest) + multiset{params[i]}
    ensures multiset(EncodePairs(params)) == multiset(EncodePairs(rest)) + multiset{EncodePair(params[i])}
  {
    rest := params[..i] + params[i + 1..];
    assert params == params[..i] + [params[i]] + params[i + 1..];
    assert EncodePairs(rest) == EncodePairs(params[..i]) + EncodePairs(params[i + 1..]);
    assert EncodePairs(params) == EncodePairs(params[..i]) + [EncodePair(params[i])] + EncodePairs(params[i + 1..]);
  }

  /** Two parameter lists with the same entries sort to the same encoded list. */
  lemma {:induction false} EncodePermutation(p: seq<Param>, q: seq<Param>)
    requires multiset(p) == multiset(q)
    ensures multiset(EncodePairs(p)) == multiset(EncodePairs(q))
    decreases |p|
  {
    assert |p| == |multiset(p)| == |multiset(q)| == |q|;
    if p != [] {
      var p' := RemoveParam(p, 0);
      assert p[0] in multiset(q);
      var i :| 0 <= i < |q| && q[i] == p[0];
      var q' := RemoveParam(q, i);
      assert multiset(p') == multiset(p) - multiset{p[0]} && multiset(q') == multiset(q) - multiset{p[0]};
      EncodePermutation(p', q');
    }
  }

  /** The canonical text does not depend on the order the parameters came in. */
  lemma CanonicalQueryIgnoresOrder(p: seq<Param>, q: seq<Param>)
    requires multiset(p) == multiset(q)
    ensures CanonicalQuery(p) == CanonicalQuery(q)
  {
    EncodePermutation(p, q);
    SortedIsSortedPermutation(EncodePairs(p));
    SortedIsSortedPermutation(EncodePairs(q));
    SortedListingIsUnique(Sorted(EncodePairs(p)), Sorted(EncodePairs(q)));
  }

  /** Any reordering of the encoded pairs encodes a reordering of the parameters. */
  lemma {:induction false} PermutationLifts(params: seq<Param>, pairs: seq<Pair>) returns (t: seq<Param>)
    requires multiset(pairs) == multiset(EncodePairs(params))
    ensures multiset(t) == multiset(params) && EncodePairs(t) == pairs
    decreases |pairs|
  {
    assert |pairs| == |multiset(pairs)| == |multiset(EncodePairs(params))| == |params|;
    if pairs == [] {
      t := [];
    } else {
      var n := |pairs| - 1;
      assert pairs == pairs[..n] + [pairs[n]];
      assert pairs[n] in multiset(EncodePairs(params));
      var i :| 0 <= i < |params| && EncodePairs(params)[i] == pairs[n];
      var rest := RemoveParam(params, i);
      assert multiset(pairs[..n]) == multiset(pairs) - multiset{pairs[n]};
      var t' := PermutationLifts(rest, pairs[..n]);
      t := t' + [params[i]];
      assert EncodePairs(t) == EncodePairs(t') + [EncodePair(params[i])];
    }
  }

  lemma KeyValueSplit(k: string, v: string)
    requires '=' !in k && '=' !in v
    ensures Split(k + "=" + v, '=') == [k, v]
  {
    SplitAtFirst(k, '=', v);
    SplitSeparatorFree(v, '=');
    assert k + "=" + v == k + ['='] + v;
  }

  lemma ParsePairOfEncoded(p: Param)
    ensures ParsePair(UriEncode(p.0) + "=" + UriEncode(p.1)) == Some(p)
    ensures '&' !in UriEncode(p.0) + "=" + UriEncode(p.1)
  {
    EncodedHasNoSeparator(p.0);
    EncodedHasNoSeparator(p.1);
    KeyValueSplit(UriEncode(p.0), UriEncode(p.1));
    DecodeEncode(p.0);
    DecodeEncode(p.1);
  }

  lemma {:induction false} ParsePairsOfEncoded(params: seq<Param>)
    ensures ParsePairs(RenderPairs(EncodePairs(params))) == Some(params)
  {
    if params != [] {
      ParsePairOfEncoded(params[0]);
      ParsePairsOfEncoded(params[1..]);
      var pieces := RenderPairs(EncodePairs(params));
      assert pieces[0] == UriEncode(params[0].0) + "=" + UriEncode(params[0].1);
      assert pieces[1..] == RenderPairs(EncodePairs(params[1..]));
      assert params == [params[0]] + params[1..];
    }
  }

  /** For at least one parameter, reading the canonical text back gives exactly the parameters
      that went in, now in sorted order of their encodings. */
  lemma ParseCanonicalQuery(params: seq<Param>)
    requires params != []
    ensures ParseQuery(CanonicalQuery(params)).Some?
    ensures var read := ParseQuery(CanonicalQuery(params)).value;
            multiset(read) == multiset(params) && IsSorted(EncodePairs(read))
  {
    SortedIsSortedPermutation(EncodePairs(params));
    var sorted := Sorted(EncodePairs(params));
    var t := PermutationLifts(params, sorted);
    var pieces := RenderPairs(sorted);
    assert |sorted| == |multiset(sorted)| == |multiset(EncodePairs(params))|;
    forall i | 0 <= i < |pieces| ensures '&' !in pieces[i] {
      ParsePairOfEncoded(t[i]);
    }
    SplitJoin(pieces, '&');
    ParsePairsOfEncoded(t);
  }

  /** With no parameter at all the text is empty, and reading it back fails. */
  lemma ParseEmptyQuery()
    ensures CanonicalQuery([]) == "" && ParseQuery("").None?
  {
    assert Split("", '&') == [""];
    assert Split("", '=') == [""];
  }
}
