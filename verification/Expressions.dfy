/** Arazzo runtime expressions, and the tokenizer for strings with expressions in {$...} blocks. */
module Expressions {
  import opened Common

  datatype ExpressionType =
    | URL | Method | StatusCode
    | RequestHeader | RequestQuery | RequestPath | RequestBody
    | ResponseHeader | ResponseQuery | ResponsePath | ResponseBody
    | Inputs | Outputs | Steps | Workflows | SourceDescriptions
    | Components | ComponentParameters

  datatype Expression = Expression(
    kind: ExpressionType, raw: string, name: string, tail: string, property: string, jsonPointer: string)

  // A zero value of the given type.
  function Blank(kind: ExpressionType, raw: string): Expression {
    Expression(kind, raw, "", "", "", "")
  }

  // The letter behind the dollar sign.
  function Letter(kind: ExpressionType): char {
    match kind
    case URL => 'u'
    case Method => 'm'
    case StatusCode => 's'
    case Steps => 's'
    case SourceDescriptions => 's'
    case Inputs => 'i'
    case Outputs => 'o'
    case Workflows => 'w'
    case Components => 'c'
    case ComponentParameters => 'c'
    case _ => 'r'
  }

  // The token characters of RFC 7230.
  predicate IsTchar(c: char) {
    'a' <= c <= 'z' || 'A' <= c <= 'Z' || '0' <= c <= '9' || c in "!#$%&'*+-.^_`|~"
  }

  function IndexOf(s: string, c: char): (r: Option<nat>)
    ensures r.Some? ==> r.value < |s| && s[r.value] == c && c !in s[..r.value]
    ensures r.None? ==> c !in s
  {
    if s == "" then None
    else if s[0] == c then Some(0)
    else
      match IndexOf(s[1..], c)
      case None => None
      case Some(i) => assert s[..i + 1] == [s[0]] + s[1..][..i]; Some(i + 1)
  }

  // ----- one expression -----

  function Parse(input: string): (r: Option<Expression>)
    ensures r.Some? ==>
              r.value.raw == input && |input| >= 2 && input[0] == '$' && input[1] == Letter(r.value.kind)
  {
    if |input| < 2 || input[0] != '$' then None
    else if input[1] == 'u' then ParseWhole(input, "$url", URL)
    else if input[1] == 'm' then ParseWhole(input, "$method", Method)
    else if input[1] == 's' then ParseS(input)
    else if input[1] == 'r' then ParseR(input)
    else if input[1] == 'i' then ParseNameOnly(input, "$inputs.", Inputs)
    else if input[1] == 'o' then ParseNameOnly(input, "$outputs.", Outputs)
    else if input[1] == 'w' then ParseNamed(input, "$workflows.", Workflows)
    else if input[1] == 'c' then ParseComponents(input)
    else None
  }

  function ParseWhole(input: string, word: string, kind: ExpressionType): (r: Option<Expression>)
    ensures r.Some? ==> r.value.raw == input && r.value.kind == kind
  {
    if input == word then Some(Blank(kind, input)) else None
  }

  function ParseS(input: string): (r: Option<Expression>)
    ensures r.Some? ==> r.value.raw == input && Letter(r.value.kind) == 's'
  {
    if input == "$statusCode" then Some(Blank(StatusCode, input))
    else if "$steps." <= input then ParseNamed(input, "$steps.", Steps)
    else ParseNamed(input, "$sourceDescriptions.", SourceDescriptions)
  }

  function ParseR(input: string): (r: Option<Expression>)
    ensures r.Some? ==> r.value.raw == input && Letter(r.value.kind) == 'r'
  {
    if "$request." <= input then
      ParseSource(input, "$request.", RequestHeader, RequestQuery, RequestPath, RequestBody)
    else
      ParseSource(input, "$response.", ResponseHeader, ResponseQuery, ResponsePath, ResponseBody)
  }

  function ParseNameOnly(input: string, prefix: string, kind: ExpressionType): (r: Option<Expression>)
    ensures r.Some? ==> r.value.raw == input && r.value.kind == kind
  {
    if prefix <= input && input != prefix then Some(Blank(kind, input).(name := input[|prefix|..])) else None
  }

  function ParseSource(input: string, prefix: string, header: ExpressionType, query: ExpressionType,
                       path: ExpressionType, body: ExpressionType): (r: Option<Expression>)
    ensures r.Some? ==> r.value.raw == input && r.value.kind in {header, query, path, body}
  {
    if !(prefix <= input) then None
    else ParseSourceRest(input, input[|prefix|..], header, query, path, body)
  }

  function ParseSourceRest(input: string, rest: string, header: ExpressionType, query: ExpressionType,
                           path: ExpressionType, body: ExpressionType): (r: Option<Expression>)
    ensures r.Some? ==> r.value.raw == input && r.value.kind in {header, query, path, body}
  {
    if "header." <= rest then
      var name := rest[|"header."|..];
      if name != "" && forall i | 0 <= i < |name| :: IsTchar(name[i]) then
        Some(Blank(header, input).(property := name))
      else None
    else if "query." <= rest then
      if rest != "query." then Some(Blank(query, input).(property := rest[|"query."|..])) else None
    else if "path." <= rest then
      if rest != "path." then Some(Blank(path, input).(property := rest[|"path."|..])) else None
    else if rest == "body" then Some(Blank(body, input))
    else if "body#" <= rest then Some(Blank(body, input).(jsonPointer := rest[|"body#"|..]))
    else None
  }

  function ParseNamed(input: string, prefix: string, kind: ExpressionType): (r: Option<Expression>)
    ensures r.Some? ==> r.value.raw == input && r.value.kind == kind
  {
    if prefix <= input then ParseNamedRest(input, input[|prefix|..], kind) else None
  }

  function ParseNamedRest(input: string, rest: string, kind: ExpressionType): (r: Option<Expression>)
    ensures r.Some? ==> r.value.raw == input && r.value.kind == kind
  {
    if rest == "" then None
    else
      match IndexOf(rest, '.')
      case None => Some(Blank(kind, input).(name := rest))
      case Some(dot) =>
        if dot == 0 then None
        else Some(Blank(kind, input).(name := rest[..dot], tail := rest[dot + 1..]))
  }

  function ParseComponents(input: string): (r: Option<Expression>)
    ensures r.Some? ==> r.value.raw == input && (r.value.kind.Components? || r.value.kind.ComponentParameters?)
  {
    if "$components." <= input then ParseComponentsRest(input, input[|"$components."|..]) else None
  }

  function ParseComponentsRest(input: string, rest: string): (r: Option<Expression>)
    ensures r.Some? ==> r.value.raw == input && (r.value.kind.Components? || r.value.kind.ComponentParameters?)
  {
    if rest == "" then None
    else if "parameters." <= rest then
      if rest != "parameters." then Some(Blank(ComponentParameters, input).(name := rest[|"parameters."|..])) else None
    else ParseComponent(input, rest)
  }

  function ParseComponent(input: string, rest: string): (r: Option<Expression>)
    ensures r.Some? && r.value.raw == input && r.value.kind.Components?
  {
    match IndexOf(rest, '.')
    case None => Some(Blank(Components, input).(name := rest))
    case Some(dot) => Some(Blank(Components, input).(name := rest[..dot], tail := rest[dot + 1..]))
  }

  // ----- the grammar of expressions, from their parts -----

  function Prefix(kind: ExpressionType): string {
    match kind
    case URL => "$url"
    case Method => "$method"
    case StatusCode => "$statusCode"
    case RequestHeader => "$request."
    case RequestQuery => "$request."
    case RequestPath => "$request."
    case RequestBody => "$request."
    case ResponseHeader => "$response."
    case ResponseQuery => "$response."
    case ResponsePath => "$response."
    case ResponseBody => "$response."
    case Inputs => "$inputs."
    case Outputs => "$outputs."
    case Steps => "$steps."
    case Workflows => "$workflows."
    case SourceDescriptions => "$sourceDescriptions."
    case Components => "$components."
    case ComponentParameters => "$components."
  }

  predicate IsHeader(kind: ExpressionType) {
    kind.RequestHeader? || kind.ResponseHeader?
  }

  predicate IsQuery(kind: ExpressionType) {
    kind.RequestQuery? || kind.ResponseQuery?
  }

  predicate IsPath(kind: ExpressionType) {
    kind.RequestPath? || kind.ResponsePath?
  }

  predicate IsBody(kind: ExpressionType) {
    kind.RequestBody? || kind.ResponseBody?
  }

  predicate IsDotted(kind: ExpressionType) {
    kind.Steps? || kind.Workflows? || kind.SourceDescriptions?
  }

  predicate IsToken(name: string) {
    name != "" && forall i | 0 <= i < |name| :: IsTchar(name[i])
  }

  // What follows the prefix, from the parts: a name up to its first dot and a tail, where the
  // dot may stand without a tail, and a body whose pointer may be empty behind its mark.
  predicate Spells(rest: string, e: Expression) {
    if IsHeader(e.kind) then
      e == Blank(e.kind, e.raw).(property := e.property) && IsToken(e.property) && rest == "header." + e.property
    else if IsQuery(e.kind) then
      e == Blank(e.kind, e.raw).(property := e.property) && e.property != "" && rest == "query." + e.property
    else if IsPath(e.kind) then
      e == Blank(e.kind, e.raw).(property := e.property) && e.property != "" && rest == "path." + e.property
    else if IsBody(e.kind) then
      && e == Blank(e.kind, e.raw).(jsonPointer := e.jsonPointer)
      && (rest == "body#" + e.jsonPointer || (rest == "body" && e.jsonPointer == ""))
    else if e.kind.Inputs? || e.kind.Outputs? then
      e == Blank(e.kind, e.raw).(name := e.name) && e.name != "" && rest == e.name
    else if IsDotted(e.kind) then
      && e == Blank(e.kind, e.raw).(name := e.name, tail := e.tail) && e.name != "" && '.' !in e.name
      && (rest == e.name + "." + e.tail || (rest == e.name && e.tail == ""))
    else if e.kind.Components? then
      && e == Blank(e.kind, e.raw).(name := e.name, tail := e.tail) && '.' !in e.name
      && ((rest == e.name + "." + e.tail && e.name != "parameters") || (rest == e.name != "" && e.tail == ""))
    else if e.kind.ComponentParameters? then
      e == Blank(e.kind, e.raw).(name := e.name) && e.name != "" && rest == "parameters." + e.name
    else
      e == Blank(e.kind, e.raw) && rest == ""
  }

  // The text of an expression with these parts.
  predicate Written(input: string, e: Expression) {
    e.raw == input && Prefix(e.kind) <= input && Spells(input[|Prefix(e.kind)|..], e)
  }

  lemma WordAndRest(rest: string, word: string)
    ensures word <= rest ==> rest == word + rest[|word|..]
  {}

  // A word at the start of a text fixes its characters, so different words exclude one another.
  lemma StartsWith(input: string, word: string, k: nat)
    requires word <= input && k < |word|
    ensures input[k] == word[k]
  {}

  lemma WordFirst(word: string, rest: string)
    ensures word <= word + rest && (word + rest)[|word|..] == rest
  {}

  lemma {:induction false} IndexAfter(text: string, c: char, rest: string)
    requires c !in text
    ensures IndexOf(text + ([c] + rest), c) == Some(|text|)
  {
    if text != "" {
      assert (text + ([c] + rest))[1..] == text[1..] + ([c] + rest);
      IndexAfter(text[1..], c, rest);
    }
  }

  lemma CutJoined(text: string, c: char, inner: string)
    ensures (text + ([c] + inner))[..|text|] == text && (text + ([c] + inner))[|text| + 1..] == inner
  {}

  lemma FirstDot(rest: string, name: string, tail: string)
    requires '.' !in name
    ensures rest == name + "." + tail ==>
              IndexOf(rest, '.') == Some(|name|) && rest[..|name|] == name && rest[|name| + 1..] == tail
  {
    IndexAfter(name, '.', tail);
    CutJoined(name, '.', tail);
    assert name + "." + tail == name + (['.'] + tail);
  }

  lemma SplitAt(rest: string, dot: nat)
    requires dot < |rest| && rest[dot] == '.'
    ensures rest == rest[..dot] + "." + rest[dot + 1..]
  {}

  // A name up to the first dot, and what follows the dot.
  lemma DottedParts(rest: string, name: string, tail: string)
    ensures (match IndexOf(rest, '.')
             case None => name == rest && tail == ""
             case Some(dot) => name == rest[..dot] && tail == rest[dot + 1..])
            <==> '.' !in name && (rest == name + "." + tail || (rest == name && tail == ""))
  {
    if IndexOf(rest, '.').Some? { SplitAt(rest, IndexOf(rest, '.').value); }
    if '.' !in name { FirstDot(rest, name, tail); }
  }

  lemma WholeParse(input: string, word: string, e: Expression)
    requires Prefix(e.kind) == word && (e.kind.URL? || e.kind.Method? || e.kind.StatusCode?)
    ensures ParseWhole(input, word, e.kind) == Some(e) <==> Written(input, e)
  {
    WordAndRest(input, word);
    if Written(input, e) { assert word + "" == word; }
  }

  lemma NameOnlyParse(input: string, prefix: string, e: Expression)
    requires Prefix(e.kind) == prefix && (e.kind.Inputs? || e.kind.Outputs?)
    ensures ParseNameOnly(input, prefix, e.kind) == Some(e) <==> Written(input, e)
  {
    WordAndRest(input, prefix);
  }

  lemma NamedParse(input: string, prefix: string, e: Expression)
    requires Prefix(e.kind) == prefix && IsDotted(e.kind)
    ensures ParseNamed(input, prefix, e.kind) == Some(e) <==> Written(input, e)
  {
    if prefix <= input { NamedRestParse(input, input[|prefix|..], e); }
  }

  lemma NamedRestParse(input: string, rest: string, e: Expression)
    requires IsDotted(e.kind)
    ensures ParseNamedRest(input, rest, e.kind) == Some(e) <==> e.raw == input && Spells(rest, e)
  {
    DottedParts(rest, e.name, e.tail);
  }

  // The words that follow $request. and $response. tell the types apart.
  lemma SourceWords(rest: string, e: Expression)
    requires Spells(rest, e)
    ensures IsHeader(e.kind) ==> "header." <= rest && rest[|"header."|..] == e.property
    ensures IsQuery(e.kind) ==> "query." <= rest && rest != "query." && rest[|"query."|..] == e.property
    ensures IsPath(e.kind) ==> "path." <= rest && rest != "path." && rest[|"path."|..] == e.property
    ensures IsBody(e.kind) ==> rest == "body" || ("body#" <= rest && rest[|"body#"|..] == e.jsonPointer)
  {
    WordFirst("header.", e.property);
    WordFirst("query.", e.property);
    WordFirst("path.", e.property);
    WordFirst("body#", e.jsonPointer);
  }

  lemma SourceWordsDiffer(rest: string)
    ensures "header." <= rest ==> !("query." <= rest || "path." <= rest || "body#" <= rest || rest == "body")
    ensures "query." <= rest ==> !("path." <= rest || "body#" <= rest || rest == "body")
    ensures "path." <= rest ==> !("body#" <= rest || rest == "body")
  {
    if "header." <= rest { StartsWith(rest, "header.", 0); }
    if "query." <= rest { StartsWith(rest, "query.", 0); }
    if "path." <= rest { StartsWith(rest, "path.", 0); }
    if "body#" <= rest { StartsWith(rest, "body#", 0); }
  }

  lemma SourceParse(input: string, rest: string, header: ExpressionType, query: ExpressionType, path: ExpressionType,
                    body: ExpressionType, e: Expression)
    requires IsHeader(header) && IsQuery(query) && IsPath(path) && IsBody(body)
    ensures ParseSourceRest(input, rest, header, query, path, body) == Some(e)
            <==> e.raw == input && e.kind in {header, query, path, body} && Spells(rest, e)
  {
    SourceWordsDiffer(rest);
    if Spells(rest, e) {
      SourceWords(rest, e);
    } else {
      WordAndRest(rest, "header.");
      WordAndRest(rest, "query.");
      WordAndRest(rest, "path.");
      WordAndRest(rest, "body#");
    }
  }

  // A component called parameters with something behind its dot is a parameter instead.
  lemma ComponentParse(input: string, rest: string, e: Expression)
    requires e.kind.Components?
    ensures ParseComponentsRest(input, rest) == Some(e) <==> e.raw == input && Spells(rest, e)
  {
    if "parameters." <= rest {
      if '.' !in e.name { ParametersDot(rest, e.name, e.tail); }
    } else {
      PlainComponentParse(input, rest, e);
    }
  }

  lemma PlainComponentParse(input: string, rest: string, e: Expression)
    requires e.kind.Components? && !("parameters." <= rest)
    ensures ParseComponentsRest(input, rest) == Some(e) <==> e.raw == input && Spells(rest, e)
  {
    if rest != "" {
      if e.name == "parameters" { PlainParameters(rest, e.tail); }
      DottedComponentParse(input, rest, e);
      PlainSpells(rest, e);
    }
  }

  lemma PlainSpells(rest: string, e: Expression)
    requires e.kind.Components? && rest != ""
    requires e.name == "parameters" ==> rest != e.name + "." + e.tail
    ensures Spells(rest, e)
            <==> && e == Blank(Components, e.raw).(name := e.name, tail := e.tail) && '.' !in e.name
                 && (rest == e.name + "." + e.tail || (rest == e.name && e.tail == ""))
  {}

  lemma DottedComponentParse(input: string, rest: string, e: Expression)
    requires e.kind.Components?
    ensures ParseComponent(input, rest) == Some(e)
            <==> && e == Blank(Components, input).(name := e.name, tail := e.tail) && '.' !in e.name
                 && (rest == e.name + "." + e.tail || (rest == e.name && e.tail == ""))
  {
    DottedParts(rest, e.name, e.tail);
  }

  lemma ParametersDot(rest: string, name: string, tail: string)
    requires "parameters." <= rest && '.' !in name
    ensures rest != name
    ensures rest == name + "." + tail ==> name == "parameters"
  {
    assert '.' !in "parameters" && "parameters." == "parameters" + ".";
    WordAndRest(rest, "parameters.");
    assert rest == "parameters" + "." + rest[|"parameters."|..];
    FirstDot(rest, "parameters", rest[|"parameters."|..]);
    FirstDot(rest, name, tail);
    assert rest[|"parameters"|] == '.';
  }

  lemma PlainParameters(rest: string, tail: string)
    requires !("parameters." <= rest)
    ensures rest != "parameters" + "." + tail
  {
    assert "parameters" + "." == "parameters.";
    WordFirst("parameters.", tail);
  }

  lemma ParameterParse(input: string, rest: string, e: Expression)
    requires e.kind.ComponentParameters?
    ensures ParseComponentsRest(input, rest) == Some(e) <==> e.raw == input && Spells(rest, e)
  {
    WordAndRest(rest, "parameters.");
    WordFirst("parameters.", e.name);
  }

  lemma ComponentsParse(input: string, e: Expression)
    ensures ParseComponents(input) == Some(e) <==> Prefix(e.kind) == "$components." && Written(input, e)
  {
    if "$components." <= input {
      var rest := input[|"$components."|..];
      if e.kind.Components? { ComponentParse(input, rest, e); }
      if e.kind.ComponentParameters? { ParameterParse(input, rest, e); }
    }
  }

  // The two letters at the start of a text choose its parser.
  lemma Dispatch(input: string, e: Expression)
    requires Written(input, e)
    ensures |input| >= 2 && input[0] == '$' && input[1] == Letter(e.kind)
  {
    StartsWith(input, Prefix(e.kind), 0);
    StartsWith(input, Prefix(e.kind), 1);
    PrefixLetter(e.kind);
  }

  lemma PrefixLetter(kind: ExpressionType)
    ensures |Prefix(kind)| >= 2 && Prefix(kind)[0] == '$' && Prefix(kind)[1] == Letter(kind)
  {}

  lemma WordsOfS(input: string)
    ensures "$steps." <= input ==> input != "$statusCode" && !("$sourceDescriptions." <= input)
    ensures "$sourceDescriptions." <= input ==> input != "$statusCode"
  {
    if "$steps." <= input { StartsWith(input, "$steps.", 3); }
    if "$sourceDescriptions." <= input { StartsWith(input, "$sourceDescriptions.", 3); }
  }

  lemma SParse(input: string, e: Expression)
    requires Letter(e.kind) == 's'
    ensures ParseS(input) == Some(e) <==> Written(input, e)
  {
    WordsOfS(input);
    if e.kind.StatusCode? {
      WholeParse(input, "$statusCode", e);
    } else if e.kind.Steps? {
      NamedParse(input, "$steps.", e);
    } else {
      NamedParse(input, "$sourceDescriptions.", e);
    }
  }

  lemma WordsOfR(input: string)
    ensures !("$request." <= input && "$response." <= input)
  {
    if "$request." <= input { StartsWith(input, "$request.", 3); }
    if "$response." <= input { StartsWith(input, "$response.", 3); }
  }

  predicate OfRequest(kind: ExpressionType) {
    kind in {RequestHeader, RequestQuery, RequestPath, RequestBody}
  }

  lemma RequestParse(input: string, e: Expression)
    requires "$request." <= input && Letter(e.kind) == 'r'
    ensures ParseR(input) == Some(e) <==> OfRequest(e.kind) && Written(input, e)
  {
    SourceParse(input, input[|"$request."|..], RequestHeader, RequestQuery, RequestPath, RequestBody, e);
  }

  lemma ResponseParse(input: string, e: Expression)
    requires !("$request." <= input) && Letter(e.kind) == 'r'
    ensures ParseR(input) == Some(e) <==> !OfRequest(e.kind) && Written(input, e)
  {
    if "$response." <= input {
      SourceParse(input, input[|"$response."|..], ResponseHeader, ResponseQuery, ResponsePath, ResponseBody, e);
    }
  }

  lemma RParse(input: string, e: Expression)
    requires Letter(e.kind) == 'r'
    ensures ParseR(input) == Some(e) <==> Written(input, e)
  {
    WordsOfR(input);
    if "$request." <= input { RequestParse(input, e); } else { ResponseParse(input, e); }
  }

  lemma ShortParse(input: string, e: Expression)
    requires |input| >= 2 && input[0] == '$' && input[1] == Letter(e.kind) && Letter(e.kind) in "umio"
    ensures Parse(input) == Some(e) <==> Written(input, e)
  {
    if e.kind.URL? {
      WholeParse(input, "$url", e);
    } else if e.kind.Method? {
      WholeParse(input, "$method", e);
    } else if e.kind.Inputs? {
      NameOnlyParse(input, "$inputs.", e);
    } else {
      NameOnlyParse(input, "$outputs.", e);
    }
  }

  /** A text is accepted as an expression with these parts exactly when the grammar writes it so. */
  lemma ParseIsWritten(input: string, e: Expression)
    ensures Parse(input) == Some(e) <==> Written(input, e)
  {
    if Written(input, e) { Dispatch(input, e); }
    if |input| >= 2 && input[0] == '$' && input[1] == Letter(e.kind) {
      if Letter(e.kind) == 's' {
        SParse(input, e);
      } else if Letter(e.kind) == 'r' {
        RParse(input, e);
      } else if Letter(e.kind) == 'w' {
        NamedParse(input, "$workflows.", e);
      } else if Letter(e.kind) == 'c' {
        ComponentsParse(input, e);
      } else {
        ShortParse(input, e);
      }
    }
  }

  // A separator that nothing follows: a dot after a name, a number sign after a body.
  predicate Dangles(longer: string, shorter: string, kind: ExpressionType) {
    || ((IsDotted(kind) || kind.Components?) && longer == shorter + ".")
    || (IsBody(kind) && longer == shorter + "#")
  }

  /** The parts of an accepted expression determine its text, but for a dangling separator. */
  lemma PartsDetermineText(input: string, other: string)
    requires Parse(input).Some? && Parse(other).Some?
    requires Parse(input).value.(raw := "") == Parse(other).value.(raw := "")
    ensures var kind := Parse(input).value.kind;
            input == other || Dangles(input, other, kind) || Dangles(other, input, kind)
  {
    var e, f := Parse(input).value, Parse(other).value;
    ParseIsWritten(input, e);
    ParseIsWritten(other, f);
    WordAndRest(input, Prefix(e.kind));
    WordAndRest(other, Prefix(e.kind));
    SpellingsDiffer(input[|Prefix(e.kind)|..], other[|Prefix(e.kind)|..], e, f);
  }

  lemma SpellingsDiffer(rest: string, other: string, e: Expression, f: Expression)
    requires Spells(rest, e) && Spells(other, f) && e.(raw := "") == f.(raw := "")
    ensures rest == other || Dangles(rest, other, e.kind) || Dangles(other, rest, e.kind)
  {
    assert e.name + "." + "" == e.name + "." && "body#" + "" == "body" + "#";
  }

  // The visible characters of ASCII but for the delimiters of RFC 7230 section 3.2.6.
  predicate IsHeaderCharacter(c: char) {
    0x21 <= c as int <= 0x7E && c !in "\"(),/:;<=>?@[\\]{}"
  }

  lemma TcharIsHeaderCharacter(c: char)
    ensures IsTchar(c) <==> IsHeaderCharacter(c)
  {}

  ghost predicate IsHeaderName(name: string) {
    name != "" && forall i | 0 <= i < |name| :: IsHeaderCharacter(name[i])
  }

  lemma HeaderNameIsToken(name: string)
    ensures IsHeaderName(name) <==> name != "" && forall i | 0 <= i < |name| :: IsTchar(name[i])
  {
    forall i | 0 <= i < |name| ensures IsTchar(name[i]) <==> IsHeaderCharacter(name[i]) {
      TcharIsHeaderCharacter(name[i]);
    }
  }

  /** Header names are the tokens of RFC 7230: one or more visible ASCII characters that are no delimiters. */
  lemma HeaderNames(name: string)
    ensures
      var asked, got := Parse("$request.header." + name), Parse("$response.header." + name);
      if IsHeaderName(name) then
        && asked.Some? && asked.value.kind == RequestHeader && asked.value.property == name
        && got.Some? && got.value.kind == ResponseHeader && got.value.property == name
      else asked.None? && got.None?
  {
    HeaderNameIsToken(name);
    RequestHeaderNames(name);
    ResponseHeaderNames(name);
  }

  lemma RequestHeaderNames(name: string)
    ensures
      var r := Parse("$request.header." + name);
      if name != "" && forall i | 0 <= i < |name| :: IsTchar(name[i]) then
        r.Some? && r.value.kind == RequestHeader && r.value.property == name
      else r.None?
  {
    var input, rest := "$request.header." + name, "header." + name;
    assert input == "$request." + rest;
    BehindRequest(input, rest);
    HeaderParse(input, "$request.", name, RequestHeader, RequestQuery, RequestPath, RequestBody);
  }

  lemma BehindRequest(input: string, rest: string)
    requires input == "$request." + rest
    ensures Parse(input) == ParseSource(input, "$request.", RequestHeader, RequestQuery, RequestPath, RequestBody)
  {
    StartsWith(input, "$request.", 0);
    StartsWith(input, "$request.", 1);
  }

  lemma ResponseHeaderNames(name: string)
    ensures
      var r := Parse("$response.header." + name);
      if name != "" && forall i | 0 <= i < |name| :: IsTchar(name[i]) then
        r.Some? && r.value.kind == ResponseHeader && r.value.property == name
      else r.None?
  {
    var input, rest := "$response.header." + name, "header." + name;
    assert input == "$response." + rest;
    BehindResponse(input, rest);
    HeaderParse(input, "$response.", name, ResponseHeader, ResponseQuery, ResponsePath, ResponseBody);
  }

  lemma BehindResponse(input: string, rest: string)
    requires input == "$response." + rest
    ensures Parse(input) == ParseSource(input, "$response.", ResponseHeader, ResponseQuery, ResponsePath, ResponseBody)
  {
    StartsWith(input, "$response.", 0);
    StartsWith(input, "$response.", 1);
    WordsOfR(input);
  }

  lemma HeaderParse(input: string, prefix: string, name: string, header: ExpressionType, query: ExpressionType,
                    path: ExpressionType, body: ExpressionType)
    requires input == prefix + ("header." + name)
    ensures
      ParseSource(input, prefix, header, query, path, body) ==
      if name != "" && forall i | 0 <= i < |name| :: IsTchar(name[i]) then Some(Blank(header, input).(property := name))
      else None
  {
    WordFirst(prefix, "header." + name);
    WordFirst("header.", name);
  }

  // ----- embedded expressions -----

  datatype Token = Literal(text: string) | Embedded(e: Expression)

  // The first "{$" of s.
  function IndexOfOpen(s: string): (r: Option<nat>)
    ensures r.Some? ==> OpensAt(s, r.value)
  {
    if |s| < 2 then None
    else if s[0] == '{' && s[1] == '$' then Some(0)
    else
      match IndexOfOpen(s[1..])
      case None => None
      case Some(i) => Some(i + 1)
  }

  predicate OpensAt(s: string, i: nat) {
    i + 1 < |s| && s[i] == '{' && s[i + 1] == '$'
  }

  // It is the first: no opening is missed, so a text without one has none anywhere.
  lemma {:induction false} OpenIsFirst(s: string, i: nat)
    requires OpensAt(s, i)
    ensures IndexOfOpen(s).Some? && IndexOfOpen(s).value <= i
  {
    if i > 0 { OpenIsFirst(s[1..], i - 1); }
  }

  // What a text starts with: a literal up to its end, an unclosed block, or a block after
  // a possibly empty literal.
  datatype Start = Plain | Unclosed | Block(text: string, raw: string, rest: string)

  function Split(s: string): (r: Start)
    ensures r.Block? ==> |r.rest| < |s|
  {
    match IndexOfOpen(s)
    case None => Plain
    case Some(open) => Closing(s[..open], s[open + 1..])
  }

  // The block whose inside starts the given text, after a literal.
  function Closing(text: string, inner: string): (r: Start)
    ensures r.Block? ==> |r.rest| < |inner|
  {
    match IndexOf(inner, '}')
    case None => Unclosed
    case Some(close) => Block(text, inner[..close], inner[close + 1..])
  }

  function Lead(text: string): seq<Token> {
    if text == "" then [] else [Literal(text)]
  }

  // The tokens of a text; None for an unclosed or invalid expression.
  function Tokens(s: string, parse: string -> Option<Expression>): Option<seq<Token>>
    decreases |s|
  {
    if s == "" then Some([])
    else
      match Split(s)
      case Plain => Some([Literal(s)])
      case Unclosed => None
      case Block(text, raw, rest) =>
        var e := parse(raw);
        if e.None? then None else After(Lead(text) + [Embedded(e.value)], Tokens(rest, parse))
  }

  function After(tokens: seq<Token>, rest: Option<seq<Token>>): Option<seq<Token>> {
    if rest.None? then None else Some(tokens + rest.value)
  }

  method ParseEmbedded(input: string) returns (r: Option<seq<Token>>)
    ensures r == Tokens(input, Parse)
  {
    r := ParseEmbeddedWith(input, Parse);
  }

  // The tokenizer, with the parser of single expressions as a parameter.
  method ParseEmbeddedWith(input: string, parse: string -> Option<Expression>) returns (r: Option<seq<Token>>)
    ensures r == Tokens(input, parse)
  {
    if |input| == 0 { return Some([]); }
    var tokens: seq<Token>, pos: nat := [], 0;
    StartAfter(input, parse);
    while pos < |input|
      invariant pos <= |input|
      invariant Tokens(input, parse) == After(tokens, Tokens(input[pos..], parse))
    {
      var start, next := NextBlock(input, pos);
      if start.Unclosed? { return None; }
      if start.Plain? {
        tokens := tokens + [Literal(input[pos..])];
        return Some(tokens);
      }
      var e := parse(start.raw);
      if e.None? { return None; }
      AfterAfter(tokens, Lead(start.text) + [Embedded(e.value)], Tokens(input[next..], parse));
      tokens := PushBlock(tokens, start.text, e.value);
      pos := next;
    }
    EndAfter(tokens, input[pos..], parse);
    return Some(tokens);
  }

  // The next block at or after a position, and where to go on behind it.
  method NextBlock(input: string, pos: nat) returns (start: Start, next: nat)
    requires pos < |input|
    ensures start == Split(input[pos..])
    ensures start.Block? ==> pos < next <= |input| && start.rest == input[next..]
  {
    next := pos;
    var open := IndexOfOpen(input[pos..]);
    SplitSlices(input, pos, open);
    if open.None? {
      start := Plain;
    } else {
      var at := pos + open.value;
      start, next := BlockAt(input, input[pos..at], at + 1);
    }
  }

  lemma SplitSlices(input: string, pos: nat, open: Option<nat>)
    requires pos < |input| && IndexOfOpen(input[pos..]) == open
    ensures
      match open
      case None => Split(input[pos..]) == Plain
      case Some(n) =>
        && pos + n + 1 < |input|
        && Split(input[pos..]) == Closing(input[pos..pos + n], input[pos + n + 1..])
  {
    SplitAtOpening(input[pos..], open);
    if open.Some? { Slices(input, pos, open.value); }
  }

  lemma SplitAtOpening(s: string, open: Option<nat>)
    requires IndexOfOpen(s) == open
    ensures
      match open
      case None => Split(s) == Plain
      case Some(n) => n + 1 < |s| && Split(s) == Closing(s[..n], s[n + 1..])
  {}

  // The block whose inside starts at a position, after a literal.
  method BlockAt(input: string, text: string, exprStart: nat) returns (start: Start, next: nat)
    requires exprStart <= |input|
    ensures start == Closing(text, input[exprStart..])
    ensures start.Block? ==> exprStart < next <= |input| && start.rest == input[next..]
  {
    var close := IndexOf(input[exprStart..], '}');
    if close.None? { return Unclosed, exprStart; }
    next := exprStart + close.value + 1;
    Slices(input, exprStart, close.value);
    start := Block(text, input[exprStart..exprStart + close.value], input[next..]);
  }

  // A literal, unless it is empty, and then the expression.
  method PushBlock(tokens: seq<Token>, text: string, e: Expression) returns (r: seq<Token>)
    ensures r == tokens + (Lead(text) + [Embedded(e)])
  {
    r := tokens;
    if |text| > 0 {
      r := r + [Literal(text)];
    }
    r := r + [Embedded(e)];
  }

  lemma StartAfter(input: string, parse: string -> Option<Expression>)
    ensures Tokens(input, parse) == After([], Tokens(input[0..], parse))
  {
    assert input[0..] == input;
    if Tokens(input, parse).Some? {
      assert [] + Tokens(input, parse).value == Tokens(input, parse).value;
    }
  }

  lemma EndAfter(tokens: seq<Token>, s: string, parse: string -> Option<Expression>)
    requires s == ""
    ensures After(tokens, Tokens(s, parse)) == Some(tokens)
  {
    assert tokens + [] == tokens;
  }

  lemma AfterAfter(a: seq<Token>, b: seq<Token>, rest: Option<seq<Token>>)
    ensures After(a, After(b, rest)) == After(a + b, rest)
  {
    if rest.Some? { assert a + (b + rest.value) == (a + b) + rest.value; }
  }

  lemma Slices(input: string, pos: nat, n: nat)
    requires pos + n < |input|
    ensures input[pos..][..n] == input[pos..pos + n]
    ensures input[pos..][n + 1..] == input[pos + n + 1..]
  {}

  // ----- printing tokens back -----

  function Write(token: Token): string {
    match token
    case Literal(text) => text
    case Embedded(e) => "{" + e.raw + "}"
  }

  function WriteAll(tokens: seq<Token>): string {
    if tokens == [] then "" else Write(tokens[0]) + WriteAll(tokens[1..])
  }

  // Literals are not empty, have no "{$" in them and never follow one another; expressions
  // are what their raw text parses to, and that text has no closing brace.
  ghost predicate WellFormed(tokens: seq<Token>, parse: string -> Option<Expression>) {
    tokens != [] ==>
      && WellFormed(tokens[1..], parse)
      && match tokens[0]
         case Literal(text) => text != "" && IndexOfOpen(text).None? && (|tokens| > 1 ==> tokens[1].Embedded?)
         case Embedded(e) => parse(e.raw) == Some(e) && '}' !in e.raw
  }

  // An accepted text is kept as it is, and starts with a dollar sign.
  ghost predicate KeepsRaw(parse: string -> Option<Expression>) {
    forall input :: parse(input).Some? ==> parse(input).value.raw == input && |input| >= 2 && input[0] == '$'
  }

  lemma ParseKeepsRaw()
    ensures KeepsRaw(Parse)
  {}

  lemma {:induction false} NoOpenBefore(s: string, i: nat)
    requires i <= |s|
    requires IndexOfOpen(s).None? || i <= IndexOfOpen(s).value
    ensures IndexOfOpen(s[..i]).None?
  {
    if i >= 2 {
      assert s[..i][1..] == s[1..][..i - 1];
      NoOpenBefore(s[1..], i - 1);
    }
  }

  // An expression block and what follows it.
  function BlockText(raw: string, rest: string): string {
    "{" + (raw + ("}" + rest))
  }

  lemma Rejoin(s: string)
    requires Split(s).Block?
    ensures var Block(text, raw, rest) := Split(s);
            s == text + BlockText(raw, rest) && IndexOfOpen(text).None? && '}' !in raw
  {
    var open := IndexOfOpen(s).value;
    NoOpenBefore(s, open);
    RejoinBlock(s[..open], s[open + 1..]);
    CutAt(s, open);
  }

  lemma RejoinBlock(text: string, inner: string)
    requires Closing(text, inner).Block?
    ensures var Block(t, raw, rest) := Closing(text, inner);
            inner == raw + ("}" + rest) && '}' !in raw
  {
    CutAt(inner, IndexOf(inner, '}').value);
  }

  lemma CutAt(s: string, i: nat)
    requires i < |s|
    ensures s == s[..i] + ([s[i]] + s[i + 1..])
  {}

  lemma WriteCons(token: Token, tokens: seq<Token>)
    ensures WriteAll([token] + tokens) == Write(token) + WriteAll(tokens)
  {
    assert ([token] + tokens)[1..] == tokens;
  }

  lemma WriteBlock(text: string, e: Expression, after: seq<Token>)
    ensures WriteAll(Lead(text) + [Embedded(e)] + after) == text + BlockText(e.raw, WriteAll(after))
  {
    WriteCons(Embedded(e), after);
    WrittenBlock(e, WriteAll(after));
    var block := [Embedded(e)] + after;
    if text != "" {
      WriteCons(Literal(text), block);
      assert [Literal(text)] + [Embedded(e)] + after == [Literal(text)] + block;
    } else {
      assert [] + [Embedded(e)] + after == block;
      assert text + WriteAll(block) == WriteAll(block);
    }
  }

  lemma WrittenBlock(e: Expression, rest: string)
    ensures Write(Embedded(e)) + rest == BlockText(e.raw, rest)
  {}

  lemma WellFormedBlock(text: string, e: Expression, after: seq<Token>, parse: string -> Option<Expression>)
    requires WellFormed(after, parse) && parse(e.raw) == Some(e) && '}' !in e.raw && IndexOfOpen(text).None?
    ensures WellFormed(Lead(text) + [Embedded(e)] + after, parse)
  {
    var block := [Embedded(e)] + after;
    assert block[1..] == after;
    if text != "" {
      var all := [Literal(text)] + [Embedded(e)] + after;
      assert all[1..] == block;
    } else {
      assert [] + [Embedded(e)] + after == block;
    }
  }

  /** Whatever is accepted is well-formed, and writing the tokens gives the text back. */
  lemma {:induction false} WriteAfterParse(s: string, parse: string -> Option<Expression>)
    requires KeepsRaw(parse) && Tokens(s, parse).Some?
    ensures WellFormed(Tokens(s, parse).value, parse) && WriteAll(Tokens(s, parse).value) == s
    decreases |s|
  {
    if s != "" {
      match Split(s)
      case Plain =>
        WriteCons(Literal(s), []);
        assert [Literal(s)] + [] == [Literal(s)] && s + "" == s;
      case Block(text, raw, rest) =>
        var e, after := parse(raw).value, Tokens(rest, parse).value;
        WriteAfterParse(rest, parse);
        Rejoin(s);
        WriteBlock(text, e, after);
        WellFormedBlock(text, e, after, parse);
    }
  }

  // The first opening in a text without one, followed by a block.
  lemma {:induction false} OpenAfter(text: string, rest: string)
    requires IndexOfOpen(text).None?
    requires |rest| >= 2 && rest[0] == '{' && rest[1] == '$'
    ensures IndexOfOpen(text + rest) == Some(|text|)
  {
    if text == "" {
      assert text + rest == rest;
    } else {
      assert (text + rest)[1..] == text[1..] + rest;
      OpenAfter(text[1..], rest);
    }
  }

  lemma ClosingBlock(text: string, raw: string, rest: string)
    requires '}' !in raw
    ensures Closing(text, raw + ("}" + rest)) == Block(text, raw, rest)
  {
    var inner := raw + (['}'] + rest);
    IndexAfter(raw, '}', rest);
    assert inner[..|raw|] == raw && inner[|raw| + 1..] == rest;
  }

  // A text without opening, a block, and what follows are told apart.
  lemma SplitBlock(text: string, raw: string, rest: string)
    requires IndexOfOpen(text).None? && '}' !in raw && raw != "" && raw[0] == '$'
    ensures Split(text + BlockText(raw, rest)) == Block(text, raw, rest)
  {
    var inner := raw + ("}" + rest);
    OpenAfter(text, "{" + inner);
    CutJoined(text, '{', inner);
    ClosingBlock(text, raw, rest);
  }

  lemma BlockParses(text: string, e: Expression, rest: string, parse: string -> Option<Expression>)
    requires KeepsRaw(parse) && parse(e.raw) == Some(e) && '}' !in e.raw && IndexOfOpen(text).None?
    ensures Tokens(text + BlockText(e.raw, rest), parse) == After(Lead(text) + [Embedded(e)], Tokens(rest, parse))
  {
    SplitBlock(text, e.raw, rest);
    assert text + BlockText(e.raw, rest) != "";
  }

  lemma LoneLiteral(tokens: seq<Token>, parse: string -> Option<Expression>)
    requires |tokens| == 1 && tokens[0].Literal? && tokens[0].text != "" && IndexOfOpen(tokens[0].text).None?
    ensures Tokens(WriteAll(tokens), parse) == Some(tokens)
  {
    var text := tokens[0].text;
    assert tokens[1..] == [] && text + "" == text;
    assert WriteAll(tokens) == text;
    assert Split(text).Plain?;
    assert tokens == [Literal(text)];
  }

  // A token list starts with its first block and the literal before it.
  lemma FirstBlock(tokens: seq<Token>)
    ensures |tokens| > 0 && tokens[0].Embedded? ==> tokens == Lead("") + [Embedded(tokens[0].e)] + tokens[1..]
    ensures |tokens| > 1 && tokens[0].Literal? && tokens[0].text != "" && tokens[1].Embedded? ==>
              tokens == Lead(tokens[0].text) + [Embedded(tokens[1].e)] + tokens[2..]
  {}

  lemma WellFormedTail(tokens: seq<Token>, parse: string -> Option<Expression>)
    requires WellFormed(tokens, parse) && |tokens| > 1 && tokens[0].Literal?
    ensures tokens[1].Embedded? && tokens[0].text != "" && IndexOfOpen(tokens[0].text).None?
    ensures parse(tokens[1].e.raw) == Some(tokens[1].e) && '}' !in tokens[1].e.raw && WellFormed(tokens[2..], parse)
  {
    assert tokens[1..][0] == tokens[1] && tokens[1..][1..] == tokens[2..];
  }

  /** Every well-formed token list is read back from what it is written as. */
  lemma {:induction false} ParseAfterWrite(tokens: seq<Token>, parse: string -> Option<Expression>)
    requires KeepsRaw(parse) && WellFormed(tokens, parse)
    ensures Tokens(WriteAll(tokens), parse) == Some(tokens)
    decreases |tokens|, 1
  {
    FirstBlock(tokens);
    if tokens != [] {
      if tokens[0].Embedded? {
        ReadBack("", tokens[0].e, tokens[1..], parse);
      } else if |tokens| > 1 {
        WellFormedTail(tokens, parse);
        ReadBack(tokens[0].text, tokens[1].e, tokens[2..], parse);
      } else {
        LoneLiteral(tokens, parse);
      }
    }
  }

  lemma {:induction false} ReadBack(text: string, e: Expression, after: seq<Token>, parse: string -> Option<Expression>)
    requires KeepsRaw(parse) && WellFormed(after, parse)
    requires parse(e.raw) == Some(e) && '}' !in e.raw && IndexOfOpen(text).None?
    ensures
      var tokens := Lead(text) + [Embedded(e)] + after;
      Tokens(WriteAll(tokens), parse) == Some(tokens)
    decreases |after|, 2
  {
    ParseAfterWrite(after, parse);
    WriteBlock(text, e, after);
    BlockParses(text, e, WriteAll(after), parse);
  }

  /** Both round trips, for the runtime expressions. */
  lemma RoundTrips(s: string, tokens: seq<Token>)
    ensures Tokens(s, Parse).Some? ==>
              WellFormed(Tokens(s, Parse).value, Parse) && WriteAll(Tokens(s, Parse).value) == s
    ensures WellFormed(tokens, Parse) ==> Tokens(WriteAll(tokens), Parse) == Some(tokens)
  {
    ParseKeepsRaw();
    if Tokens(s, Parse).Some? { WriteAfterParse(s, Parse); }
    if WellFormed(tokens, Parse) { ParseAfterWrite(tokens, Parse); }
  }

  // ----- alternation -----

  ghost predicate Alternates(tokens: seq<Token>) {
    forall i | 0 <= i < |tokens| - 1 :: tokens[i].Literal? != tokens[i + 1].Literal?
  }

  // No block of the text is directly followed by another one.
  predicate Separated(s: string)
    decreases |s|
  {
    match Split(s)
    case Block(text, raw, rest) => !OpensAt(rest, 0) && Separated(rest)
    case _ => true
  }

  // The tokens of a text start with an expression exactly when the text starts with a block.
  lemma FirstToken(s: string, parse: string -> Option<Expression>)
    requires Tokens(s, parse).Some?
    ensures Tokens(s, parse).value != [] && Tokens(s, parse).value[0].Embedded? <==> OpensAt(s, 0)
  {
    if OpensAt(s, 0) { OpenIsFirst(s, 0); }
  }

  lemma BlockAlternates(text: string, e: Expression, after: seq<Token>)
    ensures Alternates(Lead(text) + [Embedded(e)] + after)
            <==> Alternates(after) && (after != [] ==> after[0].Literal?)
  {
    var lead := Lead(text);
    var all, n := lead + [Embedded(e)] + after, |lead| + 1;
    assert all[n - 1] == Embedded(e) && (after != [] ==> all[n] == after[0]);
    assert forall i | 0 <= i < |after| :: all[n + i] == after[i];
    if Alternates(all) {
      forall i | 0 <= i < |after| - 1 ensures after[i].Literal? != after[i + 1].Literal? {
        assert all[n + i].Literal? != all[n + i + 1].Literal?;
      }
    } else {
      var i :| 0 <= i < |all| - 1 && all[i].Literal? == all[i + 1].Literal?;
      if i >= n { assert after[i - n].Literal? == after[i - n + 1].Literal?; }
    }
  }

  /** The tokens of an accepted text alternate exactly when no block directly follows another. */
  lemma {:induction false} AlternatesWhenSeparated(s: string, parse: string -> Option<Expression>)
    requires Tokens(s, parse).Some?
    ensures Alternates(Tokens(s, parse).value) <==> Separated(s)
    decreases |s|
  {
    if s != "" {
      match Split(s)
      case Plain =>
      case Block(text, raw, rest) =>
        AlternatesWhenSeparated(rest, parse);
        FirstToken(rest, parse);
        BlockAlternates(text, parse(raw).value, Tokens(rest, parse).value);
    }
  }

  // The blocks of two expressions, one behind the other.
  function TwoBlocks(e: Expression, f: Expression): seq<Token> {
    [Embedded(e), Embedded(f)]
  }

  /** Two adjacent blocks, such as two of $url, are read as two expressions without a literal
      between them. */
  lemma AdjacentBlocks(e: Expression, f: Expression)
    requires Parse(e.raw) == Some(e) && '}' !in e.raw && Parse(f.raw) == Some(f) && '}' !in f.raw
    ensures Tokens(WriteAll(TwoBlocks(e, f)), Parse) == Some(TwoBlocks(e, f)) && !Alternates(TwoBlocks(e, f))
    ensures Parse("$url") == Some(Blank(URL, "$url")) && '}' !in "$url"
  {
    var tokens := TwoBlocks(e, f);
    assert tokens[1..] == [Embedded(f)] && tokens[1..][1..] == [];
    ParseKeepsRaw();
    ParseAfterWrite(tokens, Parse);
    assert tokens[0].Literal? == tokens[1].Literal?;
  }
}
