/** Payment requests as `mxcpay:` texts (crates/mycelium-coin/src/payment.rs).

A text is the sequence of its UTF-8 bytes. Percent-encoding follows sections 2.1 and 2.3 of RFC 3986;
an escape that is not followed by two hexadecimal digits stands for itself. Which byte sequences are
valid UTF-8 is left to an arbitrary predicate. The request id is not part of the text.
*/
module PaymentUri {
  import opened Words
  import opened Numerals

  function Ascii(s: string): (r: Text)
    ensures |r| == |s|
    ensures forall i :: 0 <= i < |s| && s[i] < '\U{0080}' ==> r[i] == s[i] as int
  {
    seq(|s|, i requires 0 <= i < |s| => if s[i] < '\U{0080}' then s[i] as int else 0)
  }

  const QUESTION: u8 := '?' as int
  const AMPERSAND: u8 := '&' as int
  const PERCENT: u8 := '%' as int
  const PLUS: u8 := '+' as int

  datatype Request = Request(address: Text, amount: u64, memo: Option<Text>, expires: Option<u64>)

  datatype Parsed<T> = Ok(value: T) | NotPaymentUri | InvalidMemo

  // ------------------------------------------------------------- decimal text

  /** `str::parse::<u64>`: an optional plus sign, at least one digit, no overflow. */
  function ParseU64(s: Text): Option<u64> {
    var digits := if s != [] && s[0] == PLUS then s[1..] else s;
    if digits != [] && AllDigits(digits) && ValueOf(digits) <= U64_MAX then Some(ValueOf(digits)) else None
  }

  lemma DecimalParses(n: u64)
    ensures ParseU64(Decimal(n)) == Some(n)
  {
    DecimalValue(n);
    assert IsDigit(Decimal(n)[0]);
  }

  /** The texts that stand for a number: its numeral behind any number of zeros and at most one plus sign. */
  ghost predicate StandsFor(s: Text, n: nat) {
    exists k: nat :: s == Zeros(k) + Decimal(n) || s == [PLUS] + (Zeros(k) + Decimal(n))
  }

  /** Parsing accepts exactly these texts, for numbers of 64 bits. */
  lemma ParsesIff(s: Text, n: nat)
    ensures ParseU64(s) == Some(n) <==> StandsFor(s, n) && n <= U64_MAX
  {
    var digits := if s != [] && s[0] == PLUS then s[1..] else s;
    if ParseU64(s) == Some(n) {
      var k := DigitsAreNumeral(digits);
      assert s == digits || s == [PLUS] + digits;
    }
    if StandsFor(s, n) && n <= U64_MAX {
      var k: nat :| s == Zeros(k) + Decimal(n) || s == [PLUS] + (Zeros(k) + Decimal(n));
      var d := Zeros(k) + Decimal(n);
      ZerosValue(k, n);
      DecimalValue(n);
      assert IsDigit(d[0]);
      assert ([PLUS] + d)[1..] == d;
    }
  }

  // ---------------------------------------------------------- percent-encoding

  /** Section 2.3 of RFC 3986. */
  predicate Unreserved(c: u8) {
    || 'a' as int <= c <= 'z' as int || 'A' as int <= c <= 'Z' as int || IsDigit(c)
    || c == '-' as int || c == '_' as int || c == '.' as int || c == '~' as int
  }

  function HexDigit(v: nat): u8
    requires v < 16
  {
    if v < 10 then '0' as int + v else 'A' as int + v - 10
  }

  function HexValue(c: u8): Option<nat> {
    if IsDigit(c) then Some(c - '0' as int)
    else if 'A' as int <= c <= 'F' as int then Some(c - 'A' as int + 10)
    else if 'a' as int <= c <= 'f' as int then Some(c - 'a' as int + 10)
    else None
  }

  function EncodeByte(c: u8): Text {
    if Unreserved(c) then [c] else [PERCENT, HexDigit(c / 16), HexDigit(c % 16)]
  }

  function Encode(s: Text): Text {
    if s == [] then [] else EncodeByte(s[0]) + Encode(s[1..])
  }

  predicate StartsEscape(s: Text) {
    |s| >= 3 && s[0] == PERCENT && HexValue(s[1]).Some? && HexValue(s[2]).Some?
  }

  function EscapeValue(s: Text): u8
    requires StartsEscape(s)
  {
    16 * HexValue(s[1]).value + HexValue(s[2]).value
  }

  function Decode(s: Text): Text {
    if s == [] then []
    else if StartsEscape(s) then [EscapeValue(s)] + Decode(s[3..])
    else [s[0]] + Decode(s[1..])
  }

  lemma DecodeByte(c: u8, rest: Text)
    ensures Decode(EncodeByte(c) + rest) == [c] + Decode(rest)
  {
    var s := EncodeByte(c) + rest;
    if Unreserved(c) {
      assert s[0] == c && s[1..] == rest;
    } else {
      HexRoundTrip(c / 16);
      HexRoundTrip(c % 16);
      assert s[0] == PERCENT && s[1] == HexDigit(c / 16) && s[2] == HexDigit(c % 16) && s[3..] == rest;
    }
  }

  lemma HexRoundTrip(v: nat)
    requires v < 16
    ensures HexValue(HexDigit(v)) == Some(v)
  {}

  /** Decoding undoes encoding. */
  lemma {:induction false} DecodeEncode(s: Text)
    ensures Decode(Encode(s)) == s
    decreases |s|
  {
    if s != [] {
      DecodeEncode(s[1..]);
      DecodeByte(s[0], Encode(s[1..]));
      assert s == [s[0]] + s[1..];
    }
  }

  /** Text without a valid escape stands for itself. */
  lemma {:induction false} DecodePlain(s: Text)
    requires forall i :: 0 <= i < |s| ==> !StartsEscape(s[i..])
    ensures Decode(s) == s
    decreases |s|
  {
    if s != [] {
      assert s[0..] == s;
      forall i | 0 <= i < |s[1..]|
        ensures !StartsEscape(s[1..][i..])
      {
        assert s[1..][i..] == s[i + 1..];
      }
      DecodePlain(s[1..]);
      assert s == [s[0]] + s[1..];
    }
  }

  /** Encoded text consists of unreserved characters and percent signs only. */
  lemma {:induction false} EncodePlain(s: Text)
    ensures forall i :: 0 <= i < |Encode(s)| ==> Unreserved(Encode(s)[i]) || Encode(s)[i] == PERCENT
    decreases |s|
  {
    if s != [] {
      EncodePlain(s[1..]);
      var e := EncodeByte(s[0]);
      assert forall i :: 0 <= i < |e| ==> Unreserved(e[i]) || e[i] == PERCENT;
    }
  }

  // ----------------------------------------------------------------- splitting

  /** The pieces between separators; always at least one. */
  function Split(s: Text, separator: u8): (r: seq<Text>)
    ensures |r| >= 1
  {
    if s == [] then [[]]
    else
      var rest := Split(s[1..], separator);
      if s[0] == separator then [[]] + rest else [[s[0]] + rest[0]] + rest[1..]
  }

  /** Everything before and after the first separator. */
  function SplitOnce(s: Text, separator: u8): Option<(Text, Text)> {
    if s == [] then None
    else if s[0] == separator then Some(([], s[1..]))
    else
      var r := SplitOnce(s[1..], separator);
      if r.None? then None else Some(([s[0]] + r.value.0, r.value.1))
  }

  function StripPrefix(s: Text, prefix: Text): Option<Text> {
    if prefix <= s then Some(s[|prefix|..]) else None
  }

  lemma {:induction false} SplitFirst(piece: Text, rest: Text, separator: u8)
    requires separator !in piece
    ensures Split(piece + [separator] + rest, separator) == [piece] + Split(rest, separator)
    decreases |piece|
  {
    var s := piece + [separator] + rest;
    if piece == [] {
      assert s[1..] == rest;
    } else {
      SplitFirst(piece[1..], rest, separator);
      assert s[1..] == piece[1..] + [separator] + rest;
      assert piece == [piece[0]] + piece[1..];
    }
  }

  lemma {:induction false} SplitNone(piece: Text, separator: u8)
    requires separator !in piece
    ensures Split(piece, separator) == [piece]
    decreases |piece|
  {
    if piece != [] {
      SplitNone(piece[1..], separator);
      assert piece == [piece[0]] + piece[1..];
    }
  }

  /** The split falls at the first separator, wherever that is. */
  lemma {:induction false} SplitOnceFirst(head: Text, rest: Text, separator: u8)
    requires separator !in head
    ensures SplitOnce(head + [separator] + rest, separator) == Some((head, rest))
    decreases |head|
  {
    var s := head + [separator] + rest;
    if head == [] {
      assert s[1..] == rest;
    } else {
      SplitOnceFirst(head[1..], rest, separator);
      assert s[1..] == head[1..] + [separator] + rest;
      assert head == [head[0]] + head[1..];
    }
  }

  lemma {:induction false} SplitOnceHead(s: Text, separator: u8)
    ensures SplitOnce(s, separator).Some? <==> separator in s
    ensures SplitOnce(s, separator).Some? ==> separator !in SplitOnce(s, separator).value.0
    decreases |s|
  {
    if s != [] {
      SplitOnceHead(s[1..], separator);
      assert s == [s[0]] + s[1..];
    }
  }

  function Join(pieces: seq<Text>, separator: u8): Text {
    if pieces == [] then [] else if |pieces| == 1 then pieces[0]
    else pieces[0] + [separator] + Join(pieces[1..], separator)
  }

  /** Splitting is the inverse of joining pieces without separators. */
  lemma {:induction false} SplitIsInverse(s: Text, separator: u8)
    ensures Join(Split(s, separator), separator) == s
    ensures forall i :: 0 <= i < |Split(s, separator)| ==> separator !in Split(s, separator)[i]
    decreases |s|
  {
    if s != [] {
      SplitIsInverse(s[1..], separator);
      var rest := Split(s[1..], separator);
      if s[0] == separator {
        assert ([[]] + rest)[1..] == rest;
        assert [] + [separator] + s[1..] == s;
      } else {
        JoinFirst(s[0], rest, separator);
        assert [s[0]] + s[1..] == s;
      }
    }
  }

  lemma JoinFirst(c: u8, rest: seq<Text>, separator: u8)
    requires |rest| >= 1
    ensures Join([[c] + rest[0]] + rest[1..], separator) == [c] + Join(rest, separator)
  {
    var all := [[c] + rest[0]] + rest[1..];
    assert all[1..] == rest[1..];
    if |rest| > 1 {
      assert ([c] + rest[0]) + [separator] + Join(rest[1..], separator) == [c] + (rest[0] + [separator] + Join(rest[1..], separator));
    }
  }

  // ------------------------------------------------------------------- printing

  function AmountParam(r: Request): Text {
    Ascii("amount=") + Decimal(r.amount)
  }

  function MemoParam(memo: Text): Text {
    Ascii("memo=") + Encode(memo)
  }

  function ExpiresParam(t: u64): Text {
    Ascii("expires=") + Decimal(t)
  }

  function MemoOf(r: Request): Option<Text> {
    if r.memo.Some? then Some(MemoParam(r.memo.value)) else None
  }

  function ExpiresOf(r: Request): Option<Text> {
    if r.expires.Some? then Some(ExpiresParam(r.expires.value)) else None
  }

  /** An optional parameter behind its separator. */
  function Behind(param: Option<Text>): Text {
    if param.Some? then [AMPERSAND] + param.value else []
  }

  function ToUri(r: Request): Text {
    Ascii("mxcpay:") + (r.address + [QUESTION] + (AmountParam(r) + (Behind(MemoOf(r)) + Behind(ExpiresOf(r)))))
  }

  method PrintUri(r: Request) returns (uri: Text)
    ensures uri == ToUri(r)
  {
    var params := AmountParam(r);
    if r.memo.Some? {
      params := params + [AMPERSAND] + MemoParam(r.memo.value);
    }
    if r.expires.Some? {
      params := params + [AMPERSAND] + ExpiresParam(r.expires.value);
    }
    AppendBoth(AmountParam(r), MemoOf(r), ExpiresOf(r));
    uri := Ascii("mxcpay:") + (r.address + [QUESTION] + params);
  }

  lemma AppendBoth(a: Text, m: Option<Text>, e: Option<Text>)
    ensures var am := if m.Some? then a + [AMPERSAND] + m.value else a;
            (if e.Some? then am + [AMPERSAND] + e.value else am) == a + (Behind(m) + Behind(e))
  {}

  // -------------------------------------------------------------------- parsing

  /** What one parameter does to the fields read so far; unknown parameters do nothing. */
  function ReadParam(r: Request, param: Text, utf8: Text -> bool): Parsed<Request> {
    var amount := StripPrefix(param, Ascii("amount="));
    var memo := StripPrefix(param, Ascii("memo="));
    var expires := StripPrefix(param, Ascii("expires="));
    if amount.Some? then
      var n := ParseU64(amount.value);
      Ok(r.(amount := if n.Some? then n.value else 0))
    else if memo.Some? then
      if utf8(Decode(memo.value)) then Ok(r.(memo := Some(Decode(memo.value)))) else InvalidMemo
    else if expires.Some? then Ok(r.(expires := ParseU64(expires.value)))
    else Ok(r)
  }

  /** Parameters are read from left to right; later ones win, and an invalid memo ends it. */
  function ReadParams(r: Request, params: seq<Text>, utf8: Text -> bool): Parsed<Request>
    decreases |params|
  {
    if params == [] then Ok(r)
    else if params[0] == [] then ReadParams(r, params[1..], utf8)
    else
      var r' := ReadParam(r, params[0], utf8);
      if r'.Ok? then ReadParams(r'.value, params[1..], utf8) else r'
  }

  function Blank(address: Text): Request {
    Request(address, 0, None, None)
  }

  function FromUri(uri: Text, utf8: Text -> bool): Parsed<Request> {
    var rest := StripPrefix(uri, Ascii("mxcpay:"));
    if rest.None? then NotPaymentUri
    else
      var parts := SplitOnce(rest.value, QUESTION);
      if parts.None? then ReadParams(Blank(rest.value), Split([], AMPERSAND), utf8)
      else ReadParams(Blank(parts.value.0), Split(parts.value.1, AMPERSAND), utf8)
  }

  /** The loop of `from_uri`. */
  method ParseUri(uri: Text, utf8: Text -> bool) returns (result: Parsed<Request>)
    ensures result == FromUri(uri, utf8)
  {
    var rest := StripPrefix(uri, Ascii("mxcpay:"));
    if rest.None? {
      return NotPaymentUri;
    }
    var parts := SplitOnce(rest.value, QUESTION);
    var (address, text) := if parts.Some? then parts.value else (rest.value, []);
    var r, params, i := Blank(address), Split(text, AMPERSAND), 0;
    while i < |params|
      invariant 0 <= i <= |params|
      invariant ReadParams(r, params[i..], utf8) == FromUri(uri, utf8)
    {
      assert params[i..][1..] == params[i + 1..];
      if params[i] != [] {
        var r' := ReadParam(r, params[i], utf8);
        if !r'.Ok? {
          return r';
        }
        r := r'.value;
      }
      i := i + 1;
    }
    return Ok(r);
  }

  // ---------------------------------------------------------------- round trip

  lemma DecimalPlain(n: nat)
    ensures AMPERSAND !in Decimal(n)
  {
    DecimalValue(n);
  }

  predicate Plain(param: Option<Text>) {
    param.Some? ==> AMPERSAND !in param.value
  }

  lemma ParamsPlain(r: Request)
    ensures AMPERSAND !in AmountParam(r)
    ensures Plain(MemoOf(r)) && Plain(ExpiresOf(r))
  {
    DecimalPlain(r.amount);
    if r.memo.Some? {
      EncodePlain(r.memo.value);
      var e := Encode(r.memo.value);
      assert forall i :: 0 <= i < |e| ==> e[i] != AMPERSAND;
    }
    if r.expires.Some? {
      DecimalPlain(r.expires.value);
    }
  }

  function Listed(param: Option<Text>): seq<Text> {
    if param.Some? then [param.value] else []
  }

  /** The printed parameters, in order. */
  function Params(r: Request): seq<Text> {
    [AmountParam(r)] + (Listed(MemoOf(r)) + Listed(ExpiresOf(r)))
  }

  lemma SplitLast(piece: Text, last: Option<Text>)
    requires AMPERSAND !in piece && Plain(last)
    ensures Split(piece + Behind(last), AMPERSAND) == [piece] + Listed(last)
  {
    if last.Some? {
      SplitNone(last.value, AMPERSAND);
      SplitFirst(piece, last.value, AMPERSAND);
      assert piece + Behind(last) == piece + [AMPERSAND] + last.value;
    } else {
      SplitNone(piece, AMPERSAND);
      assert piece + Behind(last) == piece;
    }
  }

  lemma SplitAt(s: Text, piece: Text, rest: Text)
    requires AMPERSAND !in piece && s == piece + [AMPERSAND] + rest
    ensures Split(s, AMPERSAND) == [piece] + Split(rest, AMPERSAND)
  {
    SplitFirst(piece, rest, AMPERSAND);
  }

  lemma Regroup(a: Text, m: Option<Text>, e: Option<Text>)
    ensures a + (Behind(m) + Behind(e)) == if m.Some? then a + [AMPERSAND] + (m.value + Behind(e)) else a + Behind(e)
    ensures Listed(m) + Listed(e) == if m.Some? then [m.value] + Listed(e) else Listed(e)
  {}

  lemma SplitAll(s: Text, a: Text, m: Option<Text>, e: Option<Text>)
    requires AMPERSAND !in a && Plain(m) && Plain(e) && s == a + (Behind(m) + Behind(e))
    ensures Split(s, AMPERSAND) == [a] + (Listed(m) + Listed(e))
  {
    Regroup(a, m, e);
    if m.Some? {
      SplitAt(s, a, m.value + Behind(e));
      SplitLast(m.value, e);
    } else {
      SplitLast(a, e);
    }
  }

  lemma ReadAmount(r: Request, n: u64, utf8: Text -> bool)
    ensures ReadParam(r, Ascii("amount=") + Decimal(n), utf8) == Ok(r.(amount := n))
  {
    DecimalParses(n);
    assert (Ascii("amount=") + Decimal(n))[7..] == Decimal(n);
  }

  lemma ReadMemo(r: Request, memo: Text, utf8: Text -> bool)
    ensures ReadParam(r, MemoParam(memo), utf8) == if utf8(memo) then Ok(r.(memo := Some(memo))) else InvalidMemo
  {
    DecodeEncode(memo);
    var p := MemoParam(memo);
    assert p[5..] == Encode(memo);
    assert p[0] == 'm' as int;
    assert Ascii("amount=")[0] == 'a' as int;
  }

  lemma ReadExpires(r: Request, t: u64, utf8: Text -> bool)
    ensures ReadParam(r, ExpiresParam(t), utf8) == Ok(r.(expires := Some(t)))
  {
    DecimalParses(t);
    var p := ExpiresParam(t);
    assert p[8..] == Decimal(t);
    assert p[0] == 'e' as int;
    assert Ascii("amount=")[0] == 'a' as int && Ascii("memo=")[0] == 'm' as int;
  }

  lemma ReadLast(r: Request, full: Request, utf8: Text -> bool)
    requires r.expires.None?
    ensures ReadParams(r, Listed(ExpiresOf(full)), utf8) == Ok(r.(expires := full.expires))
  {
    if full.expires.Some? {
      ReadExpires(r, full.expires.value, utf8);
      assert Listed(ExpiresOf(full))[1..] == [];
    }
  }

  /** A nonempty parameter is read first. */
  lemma ReadStep(r: Request, param: Text, rest: seq<Text>, utf8: Text -> bool)
    requires param != [] && ReadParam(r, param, utf8).Ok?
    ensures ReadParams(r, [param] + rest, utf8) == ReadParams(ReadParam(r, param, utf8).value, rest, utf8)
  {
    assert ([param] + rest)[1..] == rest;
  }

  lemma ReadsBack(r: Request, utf8: Text -> bool)
    requires r.memo.Some? ==> utf8(r.memo.value)
    ensures ReadParams(Blank(r.address), Params(r), utf8) == Ok(r)
  {
    var last, r1 := Listed(ExpiresOf(r)), Blank(r.address).(amount := r.amount);
    ReadAmount(Blank(r.address), r.amount, utf8);
    ReadStep(Blank(r.address), AmountParam(r), Listed(MemoOf(r)) + last, utf8);
    if r.memo.Some? {
      ReadMemo(r1, r.memo.value, utf8);
      ReadStep(r1, MemoParam(r.memo.value), last, utf8);
      ReadLast(r1.(memo := r.memo), r, utf8);
    } else {
      assert Listed(MemoOf(r)) + last == last;
      ReadLast(r1, r, utf8);
    }
  }

  /** Parsing recovers a printed request exactly when its address has no question mark. */
  lemma RoundTripIff(r: Request, utf8: Text -> bool)
    requires r.memo.Some? ==> utf8(r.memo.value)
    ensures FromUri(ToUri(r), utf8) == Ok(r) <==> QUESTION !in r.address
  {
    var body := AmountParam(r) + (Behind(MemoOf(r)) + Behind(ExpiresOf(r)));
    var rest := r.address + [QUESTION] + body;
    assert StripPrefix(ToUri(r), Ascii("mxcpay:")) == Some(rest);
    if QUESTION !in r.address {
      SplitOnceFirst(r.address, body, QUESTION);
      ParamsPlain(r);
      SplitAll(body, AmountParam(r), MemoOf(r), ExpiresOf(r));
      ReadsBack(r, utf8);
    } else {
      SplitOnceHead(rest, QUESTION);
      var parts := SplitOnce(rest, QUESTION).value;
      AddressKept(Blank(parts.0), Split(parts.1, AMPERSAND), utf8);
    }
  }

  /** Reading parameters never touches the address. */
  lemma {:induction false} AddressKept(r: Request, params: seq<Text>, utf8: Text -> bool)
    ensures ReadParams(r, params, utf8).Ok? ==> ReadParams(r, params, utf8).value.address == r.address
    decreases |params|
  {
    if params != [] {
      var r' := ReadParam(r, params[0], utf8);
      if params[0] == [] {
        AddressKept(r, params[1..], utf8);
      } else if r'.Ok? {
        AddressKept(r'.value, params[1..], utf8);
      }
    }
  }

  // ---------------------------------------------------------- any parameters

  /** What follows the prefix in the last parameter that has it. */
  function LastWith(params: seq<Text>, prefix: Text): Option<Text>
    decreases |params|
  {
    if params == [] then None else
      var later := LastWith(params[1..], prefix);
      if later.Some? then later else StripPrefix(params[0], prefix)
  }

  /** Every memo among the parameters decodes to valid text. */
  ghost predicate MemosValid(params: seq<Text>, utf8: Text -> bool) {
    forall i :: 0 <= i < |params| && StripPrefix(params[i], Ascii("memo=")).Some? ==>
      utf8(Decode(StripPrefix(params[i], Ascii("memo=")).value))
  }

  /** The three names do not overlap. */
  lemma PrefixesDiffer(param: Text)
    ensures !(StripPrefix(param, Ascii("amount=")).Some? && StripPrefix(param, Ascii("memo=")).Some?)
    ensures !(StripPrefix(param, Ascii("amount=")).Some? && StripPrefix(param, Ascii("expires=")).Some?)
    ensures !(StripPrefix(param, Ascii("memo=")).Some? && StripPrefix(param, Ascii("expires=")).Some?)
  {
    assert Ascii("amount=")[0] == 'a' as int && Ascii("memo=")[0] == 'm' as int && Ascii("expires=")[0] == 'e' as int;
  }

  /** The fields after reading parameters: each as its last parameter says, whatever else is there. */
  ghost predicate FieldsAre(r: Request, params: seq<Text>, out: Request) {
    var (amount, memo, expires) := (LastWith(params, Ascii("amount=")), LastWith(params, Ascii("memo=")), LastWith(params, Ascii("expires=")));
    && out.address == r.address
    && out.amount == (if amount.None? then r.amount else if ParseU64(amount.value).Some? then ParseU64(amount.value).value else 0)
    && out.memo == (if memo.None? then r.memo else Some(Decode(memo.value)))
    && out.expires == (if expires.None? then r.expires else ParseU64(expires.value))
  }

  lemma FieldsStep(r: Request, r': Request, params: seq<Text>, out: Request, utf8: Text -> bool)
    requires params != [] && FieldsAre(r', params[1..], out)
    requires ReadParam(r, params[0], utf8) == Ok(r') || (params[0] == [] && r' == r)
    ensures FieldsAre(r, params, out)
  {
    PrefixesDiffer(params[0]);
  }

  /** Reading succeeds if and only if every memo is valid, and then every field is what its last parameter says. */
  lemma {:induction false} ReadsExactly(r: Request, params: seq<Text>, utf8: Text -> bool)
    ensures ReadParams(r, params, utf8).Ok? <==> MemosValid(params, utf8)
    ensures ReadParams(r, params, utf8).Ok? ==> FieldsAre(r, params, ReadParams(r, params, utf8).value)
    ensures !ReadParams(r, params, utf8).Ok? ==> ReadParams(r, params, utf8) == InvalidMemo
    decreases |params|
  {
    if params != [] {
      var rest := params[1..];
      PrefixesDiffer(params[0]);
      var first := if params[0] == [] then Ok(r) else ReadParam(r, params[0], utf8);
      MemosFirst(params, utf8);
      if first.Ok? {
        ReadsExactly(first.value, rest, utf8);
        var out := ReadParams(first.value, rest, utf8);
        if out.Ok? {
          FieldsStep(r, first.value, params, out.value, utf8);
        }
      }
    }
  }

  lemma MemosFirst(params: seq<Text>, utf8: Text -> bool)
    requires params != []
    ensures MemosValid(params, utf8) <==>
            && MemosValid(params[1..], utf8)
            && (StripPrefix(params[0], Ascii("memo=")).Some? ==> utf8(Decode(StripPrefix(params[0], Ascii("memo=")).value)))
  {
    var rest := params[1..];
    assert forall i :: 0 <= i < |rest| ==> rest[i] == params[i + 1];
    if MemosValid(rest, utf8) {
      assert forall i :: 0 < i < |params| ==> params[i] == rest[i - 1];
    }
  }

  /** What any text is read as: its scheme must match, the address ends at the first question mark, and
  the rest are parameters between ampersands. */
  lemma ParsesExactly(address: Text, text: Text, utf8: Text -> bool)
    requires QUESTION !in address
    ensures FromUri(Ascii("mxcpay:") + address, utf8) == Ok(Blank(address))
    ensures FromUri(Ascii("mxcpay:") + (address + [QUESTION] + text), utf8) == ReadParams(Blank(address), Split(text, AMPERSAND), utf8)
  {
    var scheme := Ascii("mxcpay:");
    assert (scheme + address)[|scheme|..] == address;
    SplitOnceHead(address, QUESTION);
    var none := Split([], AMPERSAND);
    assert none[0] == [] && none[1..] == [];
    assert ReadParams(Blank(address), none[1..], utf8) == Ok(Blank(address));
    assert (scheme + (address + [QUESTION] + text))[|scheme|..] == address + [QUESTION] + text;
    SplitOnceFirst(address, text, QUESTION);
  }

  /** Only a text that starts with the scheme is taken for a payment request. */
  lemma SchemeIff(uri: Text, utf8: Text -> bool)
    ensures FromUri(uri, utf8) == NotPaymentUri <==> !(Ascii("mxcpay:") <= uri)
  {
    if Ascii("mxcpay:") <= uri {
      var rest := uri[7..];
      var parts := SplitOnce(rest, QUESTION);
      ReadsExactly(Blank(rest), Split([], AMPERSAND), utf8);
      if parts.Some? {
        ReadsExactly(Blank(parts.value.0), Split(parts.value.1, AMPERSAND), utf8);
      }
    }
  }
}
