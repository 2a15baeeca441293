/** The query string of one page request: the constant `format` filter joined
    into a single comma-separated value, the caller's query, the page number and
    the page size, encoded by `url.Values.Encode` (an opaque parameter here) and
    then rewritten so that every encoded comma `%2C` is a literal `,` again. */
module QueryString {

  const PageNumberParamName := "page"
  const PageSizeParamName := "perPage"
  const QueryParamName := "query"
  const FormatParamName := "format"

  /** The percent-encoding of a comma, which the search API refuses. */
  const EncodedComma := "%2C"

  /** The format codes the catalog recognises, in the order the Go client lists them. */
  const FormatCodes: seq<string> := [
    "ebook-overdrive",
    "ebook-media-do",
    "ebook-overdrive-provisional",
    "audiobook-overdrive",
    "audiobook-overdrive-provisional",
    "magazine-overdrive"
  ]

  /** The constant query parameters, one key with its list of values. */
  const ConstantSearchQueryParams: seq<(string, seq<string>)> := [(FormatParamName, FormatCodes)]

  /** One `key=value` entry added to the query values, in the order it was added. */
  datatype QueryParam = QueryParam(key: string, value: string)

  /** `url.Values.Encode`, which the model does not look inside. */
  type QueryEncoder = seq<QueryParam> -> string

  // ---------------------------------------------------------------------------
  // Joining with a separator, and splitting back

  /** The values with `sep` between consecutive ones and nowhere else. */
  function Join(vs: seq<string>, sep: string): string
  {
    if |vs| == 0 then ""
    else if |vs| == 1 then vs[0]
    else vs[0] + sep + Join(vs[1..], sep)
  }

  lemma {:induction false} JoinAppend(vs: seq<string>, v: string, sep: string)
    requires |vs| > 0
    ensures Join(vs + [v], sep) == Join(vs, sep) + sep + v
  {
    if |vs| == 1 {
      assert vs + [v] == [vs[0], v];
      assert [vs[0], v][1..] == [v];
    } else {
      assert (vs + [v])[1..] == vs[1..] + [v];
      JoinAppend(vs[1..], v, sep);
    }
  }

  /** The `strings.Builder` loop that writes each value and a comma after every
      value but the last. */
  method JoinWithCommas(values: seq<string>) returns (s: string)
    ensures s == Join(values, ",")
  {
    s := "";
    for i := 0 to |values|
      invariant s == if i == 0 then "" else Join(values[..i], ",") + (if i < |values| then "," else "")
    {
      s := s + values[i];
      if i != |values| - 1 {
        s := s + ",";
      }
      if i > 0 {
        assert values[..i + 1] == values[..i] + [values[i]];
        JoinAppend(values[..i], values[i], ",");
      } else {
        assert values[..1] == [values[0]];
      }
    }
    assert values[..|values|] == values;
  }

  /** `strings.Split` with a one-character separator: the maximal pieces between
      occurrences of `c` (so `""` splits into `[""]`). */
  function Split(s: string, c: char): (parts: seq<string>)
    ensures |parts| > 0
  {
    if |s| == 0 then [""]
    else
      var rest := Split(s[1..], c);
      if s[0] == c then [""] + rest else [[s[0]] + rest[0]] + rest[1..]
  }

  lemma {:induction false} SplitAfterPiece(v: string, c: char, t: string)
    requires c !in v
    ensures Split(v + t, c) == [v + Split(t, c)[0]] + Split(t, c)[1..]
  {
    if |v| > 0 {
      assert (v + t)[1..] == v[1..] + t;
      SplitAfterPiece(v[1..], c, t);
      assert [v[0]] + (v[1..] + Split(t, c)[0]) == v + Split(t, c)[0];
    } else {
      assert v + t == t;
      assert v + Split(t, c)[0] == Split(t, c)[0];
      assert Split(t, c) == [Split(t, c)[0]] + Split(t, c)[1..];
    }
  }

  /** Splitting a join undoes it, when no value contains the separator. */
  lemma {:induction false} SplitJoin(vs: seq<string>, c: char)
    requires |vs| > 0
    requires forall i :: 0 <= i < |vs| ==> c !in vs[i]
    ensures Split(Join(vs, [c]), c) == vs
  {
    if |vs| == 1 {
      SplitAfterPiece(vs[0], c, "");
      assert vs[0] + "" == vs[0];
    } else {
      var tail := Join(vs[1..], [c]);
      assert Join(vs, [c]) == vs[0] + ([c] + tail);
      SplitAfterPiece(vs[0], c, [c] + tail);
      assert ([c] + tail)[1..] == tail;
      SplitJoin(vs[1..], c);
      assert vs[0] + "" == vs[0];
    }
  }

  /** The joined `format` value lists the six codes in order, separated by
      single commas, with no comma at either end: splitting it at its commas gives
      exactly the list back (a leading, trailing or doubled comma would add an
      empty piece). */
  lemma FormatCodesSplit()
    ensures Split(Join(FormatCodes, ","), ',') == FormatCodes
  {
    forall i | 0 <= i < |FormatCodes| ensures ',' !in FormatCodes[i] {
    }
    SplitJoin(FormatCodes, ',');
  }

  // ---------------------------------------------------------------------------
  // Rewriting %2C to a comma

  /** `strings.ReplaceAll` for a non-empty pattern: scan left to right and replace
      each non-overlapping occurrence. */
  function ReplaceAll(s: string, pattern: string, replacement: string): string
    requires |pattern| > 0
    decreases |s|
  {
    if |s| < |pattern| then s
    else if s[..|pattern|] == pattern then replacement + ReplaceAll(s[|pattern|..], pattern, replacement)
    else [s[0]] + ReplaceAll(s[1..], pattern, replacement)
  }

  /** The rewrite the Go client applies to the encoded query string. */
  function DecodeCommas(s: string): string
  {
    ReplaceAll(s, EncodedComma, ",")
  }

  predicate EncodedCommaAt(s: string, i: int)
  {
    0 <= i && i + 3 <= |s| && s[i..i + 3] == EncodedComma
  }

  predicate NoEncodedComma(s: string)
  {
    forall i :: 0 <= i < |s| ==> !EncodedCommaAt(s, i)
  }

  /** Each comma percent-encoded again, everything else as it is: the inverse of
      `DecodeCommas`. */
  function EncodeCommas(t: string): string
  {
    if t == [] then []
    else (if t[0] == ',' then EncodedComma else [t[0]]) + EncodeCommas(t[1..])
  }

  lemma DecodeCommasHead(t: string)
    requires |t| > 0
    ensures |DecodeCommas(t)| > 0
    ensures DecodeCommas(t)[0] == t[0] || DecodeCommas(t)[0] == ','
    ensures t[0] != '%' ==> DecodeCommas(t)[0] == t[0] && DecodeCommas(t)[1..] == DecodeCommas(t[1..])
  {
  }

  lemma DecodeCommasCons(c: char, x: string)
    requires !(|x| >= 2 && c == '%' && x[0] == '2' && x[1] == 'C')
    ensures DecodeCommas([c] + x) == [c] + DecodeCommas(x)
  {
    assert ([c] + x)[1..] == x;
    if |x| >= 2 {
      assert ([c] + x)[..3] == [c, x[0], x[1]];
    }
  }

  lemma NoEncodedCommaCons(c: char, x: string)
    requires NoEncodedComma(x)
    requires !(|x| >= 2 && c == '%' && x[0] == '2' && x[1] == 'C')
    ensures NoEncodedComma([c] + x)
  {
    var y := [c] + x;
    forall i | 0 <= i < |y| ensures !EncodedCommaAt(y, i) {
      if i == 0 && 3 <= |y| {
        assert y[0..3] == [c, x[0], x[1]];
      } else if i > 0 && i + 3 <= |y| {
        assert y[i..i + 3] == x[i - 1..i + 2];
        assert !EncodedCommaAt(x, i - 1);
      }
    }
  }

  /** A character that is not the start of a `%2C` does not become one. */
  lemma DecodeCommasKeepsNoPattern(s: string)
    requires |s| >= 3 && s[..3] != EncodedComma
    ensures var x := DecodeCommas(s[1..]); !(|x| >= 2 && s[0] == '%' && x[0] == '2' && x[1] == 'C')
  {
    DecodeCommasHead(s[1..]);
    if s[1] != '%' {
      DecodeCommasHead(s[2..]);
      assert s[1..][1..] == s[2..];
      assert s[..3] == [s[0], s[1], s[2]];
    }
  }

  /** After the rewrite no `%2C` is left. */
  lemma {:induction false} DecodeCommasLeavesNone(s: string)
    ensures NoEncodedComma(DecodeCommas(s))
    decreases |s|
  {
    if |s| < 3 {
    } else if s[..3] == EncodedComma {
      DecodeCommasLeavesNone(s[3..]);
      NoEncodedCommaCons(',', DecodeCommas(s[3..]));
    } else {
      DecodeCommasLeavesNone(s[1..]);
      DecodeCommasKeepsNoPattern(s);
      NoEncodedCommaCons(s[0], DecodeCommas(s[1..]));
    }
  }

  lemma {:induction false} EncodeCommasIdentity(t: string)
    requires ',' !in t
    ensures EncodeCommas(t) == t
  {
    if t != [] {
      assert t == [t[0]] + t[1..];
      EncodeCommasIdentity(t[1..]);
    }
  }

  /** Every `%2C` became `,` and nothing else changed: encoding the commas of the
      rewritten string again gives back a string that had no literal comma (as
      the output of `url.Values.Encode` has none). */
  lemma {:induction false} DecodeThenEncode(s: string)
    requires ',' !in s
    ensures EncodeCommas(DecodeCommas(s)) == s
    decreases |s|
  {
    if |s| < 3 {
      EncodeCommasIdentity(s);
    } else if s[..3] == EncodedComma {
      var r' := DecodeCommas(s[3..]);
      assert DecodeCommas(s) == "," + r';
      assert ("," + r')[1..] == r';
      DecodeThenEncode(s[3..]);
      assert s == s[..3] + s[3..];
    } else {
      var r' := DecodeCommas(s[1..]);
      assert DecodeCommas(s) == [s[0]] + r';
      assert ([s[0]] + r')[1..] == r';
      DecodeThenEncode(s[1..]);
      assert s == [s[0]] + s[1..];
    }
  }

  lemma EncodeCommasHead(x: string)
    requires |x| > 0
    ensures |EncodeCommas(x)| > 0
    ensures EncodeCommas(x)[0] == if x[0] == ',' then '%' else x[0]
    ensures x[0] != ',' ==> EncodeCommas(x)[1..] == EncodeCommas(x[1..])
  {
  }

  lemma EncodeCommasKeepsNoPattern(t: string)
    requires |t| > 0 && t[0] != ',' && !EncodedCommaAt(t, 0)
    ensures var x := EncodeCommas(t[1..]); !(|x| >= 2 && t[0] == '%' && x[0] == '2' && x[1] == 'C')
  {
    if |t| >= 2 {
      EncodeCommasHead(t[1..]);
      if t[1] != ',' && |t| >= 3 {
        EncodeCommasHead(t[2..]);
        assert t[1..][1..] == t[2..];
        assert t[..3] == [t[0], t[1], t[2]];
      }
    }
  }

  /** The other direction: decoding a string whose commas were encoded gives it
      back, as long as it had no `%2C` of its own. */
  lemma {:induction false} EncodeThenDecode(t: string)
    requires NoEncodedComma(t)
    ensures DecodeCommas(EncodeCommas(t)) == t
  {
    if t != [] {
      assert NoEncodedComma(t[1..]) by {
        forall i | 0 <= i < |t[1..]| ensures !EncodedCommaAt(t[1..], i) {
          if EncodedCommaAt(t[1..], i) {
            assert t[i + 1..i + 4] == t[1..][i..i + 3];
            assert EncodedCommaAt(t, i + 1);
          }
        }
      }
      var x := EncodeCommas(t[1..]);
      EncodeThenDecode(t[1..]);
      if t[0] == ',' {
        assert EncodeCommas(t) == EncodedComma + x;
        assert (EncodedComma + x)[..3] == EncodedComma;
        assert (EncodedComma + x)[3..] == x;
      } else {
        assert EncodeCommas(t) == [t[0]] + x;
        assert !EncodedCommaAt(t, 0);
        EncodeCommasKeepsNoPattern(t);
        DecodeCommasCons(t[0], x);
        assert t == [t[0]] + t[1..];
      }
    }
  }

  // ---------------------------------------------------------------------------
  // The query values and the raw query string

  /** `strconv.Itoa`: the decimal form of an integer. */
  function IntToDecimal(n: int): string
  {
    if n < 0 then "-" + NatToDecimal(-n) else NatToDecimal(n)
  }

  function NatToDecimal(n: nat): string
  {
    if n < 10 then ["0123456789"[n]] else NatToDecimal(n / 10) + ["0123456789"[n % 10]]
  }

  /** The constant parameters, each key with its values joined by commas. */
  function ConstantParams(cs: seq<(string, seq<string>)>): seq<QueryParam>
  {
    if cs == [] then []
    else ConstantParams(cs[..|cs| - 1]) + [QueryParam(cs[|cs| - 1].0, Join(cs[|cs| - 1].1, ","))]
  }

  lemma ConstantParamsFormat()
    ensures ConstantParams(ConstantSearchQueryParams) == [QueryParam(FormatParamName, Join(FormatCodes, ","))]
  {
    assert ConstantSearchQueryParams[..0] == [];
  }

  /** The query values of one page request, in the order they are added: the
      constant parameters, then the query, the page number and the page size. */
  function QueryValues(constants: seq<(string, seq<string>)>, q: string, pageNum: int, pageSize: int): seq<QueryParam>
  {
    ConstantParams(constants)
      + [QueryParam(QueryParamName, q),
         QueryParam(PageNumberParamName, IntToDecimal(pageNum)),
         QueryParam(PageSizeParamName, IntToDecimal(pageSize))]
  }

  /** With the Go client's constant parameters the request carries one `format`
      entry whose value lists the six format codes, then the query, the page
      number and the page size. */
  lemma QueryValuesContents(q: string, pageNum: int, pageSize: int)
    ensures var vals := QueryValues(ConstantSearchQueryParams, q, pageNum, pageSize);
      && |vals| == 4
      && vals[0].key == FormatParamName && Split(vals[0].value, ',') == FormatCodes
      && vals[1] == QueryParam(QueryParamName, q)
      && vals[2] == QueryParam(PageNumberParamName, IntToDecimal(pageNum))
      && vals[3] == QueryParam(PageSizeParamName, IntToDecimal(pageSize))
  {
    FormatCodesSplit();
    ConstantParamsFormat();
  }

  /** The `RawQuery` the request carries: the encoded values with every `%2C`
      rewritten to `,`. */
  function RawQuery(constants: seq<(string, seq<string>)>, q: string, pageNum: int, pageSize: int,
                    encode: QueryEncoder): string
  {
    DecodeCommas(encode(QueryValues(constants, q, pageNum, pageSize)))
  }

  /** The raw query holds no `%2C`, and it differs from the encoded values only in
      that each `%2C` is a literal comma. */
  lemma RawQueryDecodesCommas(constants: seq<(string, seq<string>)>, q: string, pageNum: int, pageSize: int,
                              encode: QueryEncoder)
    ensures NoEncodedComma(RawQuery(constants, q, pageNum, pageSize, encode))
    ensures var encoded := encode(QueryValues(constants, q, pageNum, pageSize));
            ',' !in encoded ==> EncodeCommas(RawQuery(constants, q, pageNum, pageSize, encode)) == encoded
  {
    var encoded := encode(QueryValues(constants, q, pageNum, pageSize));
    DecodeCommasLeavesNone(encoded);
    if ',' !in encoded {
      DecodeThenEncode(encoded);
    }
  }
}
