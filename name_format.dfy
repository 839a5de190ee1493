/** `pattern.format(base=..., num=..., page=...)` as `split_pdf` calls it to
    name each output file, for the part of Python's format-string language
    those three keyword arguments can use: literal text, the `{{` and `}}`
    escapes, and replacement fields `{name}` or `{name:spec}` where an
    integer's spec is `[0][width][d]` and a string's spec is empty. */
module NameFormat {
  import opened Wrappers
  import opened PyStr

  /** The keyword arguments of the call. */
  datatype Args = Args(base: string, num: nat, page: nat)

  /** What `str.format` raises. */
  datatype FormatError =
    | KeyError(name: string)     // a named field that is not an argument
    | IndexError                 // a positional field: `{}` or `{0}`
    | Malformed                  // ValueError: a single '{' or '}'
    | Unsupported(field: string) // outside the modelled part of the language

  /** `"{base}_{num:03d}.pdf"`, written as the concatenation of its
      replacement fields and literal text. */
  const DefaultPattern: string := "{" + "base" + "}" + ("_" + ("{" + "num:03d" + "}" + ".pdf"))

  /** Prefix `s` to a successful result; an error stays. */
  function Prepend(s: string, r: Result<string, FormatError>): Result<string, FormatError>
  {
    if r.Err? then r else Ok(s + r.value)
  }

  /** Right-justify with spaces to at least `width`, as an integer field
      without the '0' flag is aligned. */
  function SpacePad(s: string, width: nat): (r: string)
    ensures |r| == if |s| < width then width else |s|
    ensures r[|r| - |s|..] == s
    ensures forall i :: 0 <= i < |r| - |s| ==> r[i] == ' '
  {
    if |s| >= width then s else " " + SpacePad(s, width - 1)
  }

  /** `format(n, spec)` for the spec grammar `[0][width][d]`. */
  function FormatInt(n: nat, spec: string): Result<string, FormatError>
  {
    var zero := spec != [] && spec[0] == '0';
    var rest := if zero then spec[1..] else spec;
    var w := if rest != [] && rest[|rest| - 1] == 'd' then rest[..|rest| - 1] else rest;
    if w != [] && !IsDigits(w) then Err(Unsupported(spec))
    else
      var width := if w == [] then 0 else DigitsValue(w);
      if zero then Ok(ZeroPad(NatToString(n), width)) else Ok(SpacePad(NatToString(n), width))
  }

  predicate NameChar(c: char) {
    c != '{' && c != '}' && c != ':' && c != '!' && c != '.' && c != '['
  }

  /** The text of one replacement field, between its braces. The field
      name ends at the first ':'; an unknown name is looked up before the
      spec is read. */
  function Field(text: string, args: Args): Result<string, FormatError>
  {
    var colon := IndexOfChar(text, ':');
    var name := text[..colon];
    var spec := if colon < |text| then text[colon + 1..] else "";
    if (exists k :: 0 <= k < |name| && !NameChar(name[k])) || '{' in spec then Err(Unsupported(text))
    else if name == "base" then (if spec == "" then Ok(args.base) else Err(Unsupported(text)))
    else if name == "num" then FormatInt(args.num, spec)
    else if name == "page" then FormatInt(args.page, spec)
    else if name == "" || IsDigits(name) then Err(IndexError)
    else Err(KeyError(name))
  }

  /** `pattern.format(...)`, read left to right; the first problem met is
      the one raised. */
  function Format(pattern: string, args: Args): Result<string, FormatError>
    decreases |pattern|
  {
    if pattern == [] then Ok("")
    else if pattern[0] == '{' then
      if |pattern| >= 2 && pattern[1] == '{' then Prepend("{", Format(pattern[2..], args))
      else
        var close := IndexOfChar(pattern[1..], '}');
        if close == |pattern| - 1 then Err(Malformed)
        else
          var field := Field(pattern[1..close + 1], args);
          if field.Err? then field else Prepend(field.value, Format(pattern[close + 2..], args))
    else if pattern[0] == '}' then
      if |pattern| >= 2 && pattern[1] == '}' then Prepend("}", Format(pattern[2..], args))
      else Err(Malformed)
    else Prepend([pattern[0]], Format(pattern[1..], args))
  }

  /** Double every brace, so that formatting gives the text back. */
  function Escape(s: string): (r: string)
    ensures |r| >= |s|
  {
    if s == [] then ""
    else if s[0] == '{' || s[0] == '}' then [s[0], s[0]] + Escape(s[1..])
    else [s[0]] + Escape(s[1..])
  }

  // ---------------------------------------------------------------------
  // Properties
  // ---------------------------------------------------------------------

  /** Literal text without braces is copied. */
  lemma {:induction false} LiteralText(t: string, rest: string, args: Args)
    requires '{' !in t && '}' !in t
    ensures Format(t + rest, args) == Prepend(t, Format(rest, args))
    decreases |t|
  {
    if t != [] {
      assert (t + rest)[1..] == t[1..] + rest;
      LiteralText(t[1..], rest, args);
      var r := Format(rest, args);
      if r.Ok? {
        assert [t[0]] + (t[1..] + r.value) == t + r.value;
      }
    } else {
      assert t + rest == rest;
      var r := Format(rest, args);
      if r.Ok? {
        assert t + r.value == r.value;
      }
    }
  }

  /** A replacement field is replaced by its value, unless it raises. */
  lemma ReplacementField(text: string, rest: string, args: Args)
    requires text != [] && text[0] != '{' && '}' !in text
    ensures var f := Field(text, args);
      Format("{" + text + "}" + rest, args) == if f.Err? then f else Prepend(f.value, Format(rest, args))
  {
    var p := "{" + text + "}" + rest;
    var q := p[1..];
    assert q == text + "}" + rest;
    forall k | 0 <= k < |text| ensures q[k] != '}' {
      assert q[k] == text[k];
    }
    IndexOfFirst(q, '}', |text|);
    assert p[0] == '{' && p[1] == text[0];
    assert p[1..|text| + 1] == text;
    assert p[|text| + 2..] == rest;
  }

  /** `{base}` is the base name. */
  lemma BaseField(args: Args)
    ensures Field("base", args) == Ok(args.base)
  {
    assert IndexOfChar("base", ':') == 4;
    assert "base"[..4] == "base";
  }

  /** `{num:spec}` and `{page:spec}` format the number by `spec`. */
  lemma NumberField(name: string, spec: string, args: Args)
    requires name == "num" || name == "page"
    requires '{' !in spec
    ensures Field(name + ":" + spec, args) == FormatInt(if name == "num" then args.num else args.page, spec)
  {
    var t := name + ":" + spec;
    IndexOfFirst(t, ':', |name|);
    assert t[..|name|] == name;
    assert t[|name| + 1..] == spec;
    assert forall k :: 0 <= k < |name| ==> NameChar(name[k]);
    assert name != "base" by { assert name[0] != "base"[0]; }
    assert name == "page" ==> name != "num";
  }

  /** `03d`: zero-padded to three digits. */
  lemma ZeroPadSpec(n: nat)
    ensures FormatInt(n, "03d") == Ok(ZeroPad(NatToString(n), 3))
  {
    var spec := "03d";
    assert spec[1..] == "3d";
    assert "3d"[..1] == "3";
    assert DigitsValue("3") == 3 by { assert "3"[..0] == ""; }
  }

  /** `{num:03d}` is the number zero-padded to three digits. */
  lemma PaddedNumberField(args: Args)
    ensures Field("num:03d", args) == Ok(ZeroPad(NatToString(args.num), 3))
  {
    NumberField("num", "03d", args);
    assert "num" + ":" + "03d" == "num:03d";
    ZeroPadSpec(args.num);
  }

  /** The pieces of the default pattern hold no brace of their own. */
  lemma DefaultPatternPieces()
    ensures "num:03d" != [] && "num:03d"[0] != '{' && '}' !in "num:03d"
    ensures "base" != [] && "base"[0] != '{' && '}' !in "base"
    ensures '{' !in ".pdf" && '}' !in ".pdf" && '{' !in "_" && '}' !in "_"
  {
  }

  /** The default pattern's tail: the zero-padded number, then `.pdf`. */
  lemma NumberTail(args: Args)
    ensures Format("{" + "num:03d" + "}" + ".pdf", args) ==
      Ok(ZeroPad(NatToString(args.num), 3) + ".pdf")
  {
    DefaultPatternPieces();
    assert ".pdf" == ".pdf" + "";
    LiteralText(".pdf", "", args);
    PaddedNumberField(args);
    ReplacementField("num:03d", ".pdf", args);
  }

  /** The default pattern names output `num` `<base>_<num, 3 digits>.pdf`. */
  lemma DefaultPatternName(args: Args)
    ensures Format(DefaultPattern, args) ==
      Ok(args.base + "_" + ZeroPad(NatToString(args.num), 3) + ".pdf")
  {
    var z := ZeroPad(NatToString(args.num), 3);
    var tail := "{" + "num:03d" + "}" + ".pdf";
    NumberTail(args);
    DefaultPatternPieces();
    LiteralText("_", tail, args);
    BaseField(args);
    ReplacementField("base", "_" + tail, args);
    assert args.base + ("_" + (z + ".pdf")) == args.base + "_" + z + ".pdf";
  }

  /** Under the default pattern, distinct output numbers give distinct
      names, whatever the base name. */
  lemma DefaultNamesDistinct(a: Args, b: Args)
    requires a.base == b.base && a.num != b.num
    ensures Format(DefaultPattern, a) != Format(DefaultPattern, b)
  {
    DefaultPatternName(a);
    DefaultPatternName(b);
    var za, zb := ZeroPad(NatToString(a.num), 3), ZeroPad(NatToString(b.num), 3);
    if a.base + "_" + za + ".pdf" == b.base + "_" + zb + ".pdf" {
      var n := |a.base| + 1;
      assert |za| == |zb|;
      assert za == (a.base + "_" + za + ".pdf")[n..n + |za|];
      assert zb == (b.base + "_" + zb + ".pdf")[n..n + |zb|];
      PaddedInjective(a.num, b.num, 3);
    }
  }

  /** Escaped text formats back to itself: the escapes are the inverse of
      doubling the braces. */
  lemma {:induction false} EscapeRoundTrip(s: string, args: Args)
    ensures Format(Escape(s), args) == Ok(s)
    decreases |s|
  {
    if s != [] {
      var e := Escape(s);
      EscapeRoundTrip(s[1..], args);
      if s[0] == '{' || s[0] == '}' {
        assert e[2..] == Escape(s[1..]);
      } else {
        assert e[1..] == Escape(s[1..]);
      }
      assert [s[0]] + s[1..] == s;
    }
  }

  /** A field naming anything but the three arguments raises KeyError. */
  lemma UnknownName(name: string, args: Args)
    requires name != [] && !IsDigits(name)
    requires forall k :: 0 <= k < |name| ==> NameChar(name[k])
    requires name != "base" && name != "num" && name != "page"
    ensures Format("{" + name + "}", args) == Err(KeyError(name))
  {
    var p := "{" + name + "}";
    assert p[1..] == name + "}";
    assert IndexOfChar(p[1..], '}') == |name| by {
      IndexOfFirst(p[1..], '}', |name|);
    }
    assert p[1..|name| + 1] == name;
    assert IndexOfChar(name, ':') == |name|;
    assert name[..|name|] == name;
  }

  /** `{page}` is the 1-based source page number in plain decimal. */
  lemma PageField(args: Args)
    ensures Format("{page}", args) == Ok(NatToString(args.page))
  {
    var n := NatToString(args.page);
    var t := "page";
    var p := "{" + t + "}" + "";
    assert p == "{page}";
    assert Field(t, args) == Ok(n) by {
      PlainPageField(args);
    }
    assert Format(p, args) == Prepend(n, Format("", args)) by {
      ReplacementField(t, "", args);
    }
    assert n + "" == n;
  }

  /** The field text `page` without a spec. */
  lemma PlainPageField(args: Args)
    ensures Field("page", args) == Ok(NatToString(args.page))
  {
    var t := "page";
    assert forall k :: 0 <= k < |t| ==> t[k] != ':' && NameChar(t[k]);
    var colon := IndexOfChar(t, ':');
    assert colon == |t|;
    assert t[..colon] == t;
    assert t != "base" by { assert t[0] != "base"[0]; }
    assert t != "num" by { assert |t| != |"num"|; }
    assert Field(t, args) == FormatInt(args.page, "");
    assert FormatInt(args.page, "") == Ok(SpacePad(NatToString(args.page), 0));
  }

  /** A lone closing brace is a ValueError. */
  lemma SingleCloseBrace(pre: string, args: Args)
    requires forall k :: 0 <= k < |pre| ==> pre[k] != '{' && pre[k] != '}'
    ensures Format(pre + "}", args) == Err(Malformed)
    decreases |pre|
  {
    if pre != [] {
      assert (pre + "}")[1..] == pre[1..] + "}";
      SingleCloseBrace(pre[1..], args);
    }
  }
}
