/** The texts a manifest may carry, and every place where they are checked. */
module CatalogText {
  import opened Wrappers
  import opened Manifest
  import opened JsonPointer
  import Text
  import Utf8
  import Ids

  predicate IsLower(c: char) { 'a' <= c <= 'z' }

  predicate IsUpper(c: char) { 'A' <= c <= 'Z' }

  predicate IsAlphanumeric(c: char) { IsLower(c) || IsUpper(c) || '0' <= c <= '9' }

  predicate IsCatalogId(value: string) { Ids.ValidCatalogId(Utf8.Encode(value)) }

  predicate IsCatalogToken(value: string) {
    value != "" && forall c | c in value :: IsAlphanumeric(c) || c in "!#$%&'*+-.^_`|~:/"
  }

  function Split(s: string, separator: char): (parts: seq<string>)
    ensures parts != []
  {
    if s == "" then [""]
    else
      var rest := Split(s[1..], separator);
      if s[0] == separator then [""] + rest else [[s[0]] + rest[0]] + rest[1..]
  }

  predicate IsDnsLabel(part: string) {
    && 0 < |part| <= 63
    && (forall c | c in part :: IsAlphanumeric(c) || c == '-')
    && part[0] != '-' && part[|part| - 1] != '-'
  }

  predicate IsDnsName(value: string) {
    value != "" && |value| <= 253 && forall part | part in Split(value, '.') :: IsDnsLabel(part)
  }

  predicate IsPathTemplate(value: string) {
    && value != "" && value[0] == '/'
    && (forall c | c in value :: c !in {'?', '#', '\\'})
    && forall segment | segment in Split(value, '/')[1..] :: segment != "." && segment != ".."
  }

  predicate IsLicenseIdentity(value: string) {
    value != "" && forall c | c in value :: IsAlphanumeric(c) || c in {'.', '-', '+', ' '}
  }

  predicate IsLowercase(value: string) { forall c | c in value :: !IsUpper(c) }

  predicate IsHeaderName(value: string) { IsLowercase(value) && IsCatalogToken(value) && ':' !in value }

  predicate IsQueryKey(value: string) {
    IsCatalogToken(value) && forall c | c in value :: c !in {'&', '=', '?', '#', ':', '/'}
  }

  predicate IsHeaderValue(value: string) { value != "" && forall c | c in value :: ' ' <= c <= '~' }

  // ----- What splitting accepts, from the parts' side

  function Join(parts: seq<string>, separator: char): string
    requires parts != []
  {
    if |parts| == 1 then parts[0] else parts[0] + [separator] + Join(parts[1..], separator)
  }

  // ----- How the rules for names relate

  predicate IsIdCharacter(c: char) { 'a' <= c <= 'z' || '0' <= c <= '9' || c in "._-" }

  /** The rule on octets, read on characters. */
  lemma CatalogIdIff(value: string)
    ensures IsCatalogId(value) <==>
      && 1 <= |value| <= 96
      && (forall c | c in value :: IsIdCharacter(c))
      && value[0] !in "._-" && value[|value| - 1] !in "._-"
  {
    Utf8.AsciiIff(value);
    var octets := Utf8.Encode(value);
    if Utf8.IsAscii(value) {
      forall i | 0 <= i < |value|
        ensures IsIdCharacter(value[i]) <==> Ids.IsAlphanumeric(octets[i]) || Ids.IsSeparator(octets[i])
        ensures Ids.IsAlphanumeric(octets[i]) <==> IsIdCharacter(value[i]) && value[i] !in "._-"
      {}
      assert forall i | 0 <= i < |value| :: value[i] in value && octets[i] in octets;
    }
  }

  lemma IdCharacters(c: char)
    requires IsIdCharacter(c)
    ensures (IsAlphanumeric(c) || c in "!#$%&'*+-.^_`|~:/") && !IsUpper(c)
    ensures c !in {'&', '=', '?', '#', ':', '/'}
  {
  }

  lemma IdsAreNames(value: string)
    requires IsCatalogId(value)
    ensures IsHeaderName(value) && IsQueryKey(value)
  {
    CatalogIdIff(value);
    forall c | c in value
      ensures (IsAlphanumeric(c) || c in "!#$%&'*+-.^_`|~:/") && !IsUpper(c)
      ensures c !in {'&', '=', '?', '#', ':', '/'}
    {
      IdCharacters(c);
    }
    hide IsCatalogId, IsIdCharacter;
  }

  lemma TokenCharacters(c: char)
    ensures IsAlphanumeric(c) || c in "!#$%&'*+-.^_`|~:/" ==> '!' <= c <= '~'
    ensures IsAlphanumeric(c) || c in {'.', '-', '+', ' '} ==> ' ' <= c <= '~'
  {
  }

  /** Identifiers may stand as header names and query keys, those as tokens; tokens and licenses as header values. */
  lemma NamesAreNested(value: string)
    ensures IsCatalogId(value) ==> IsHeaderName(value) && IsQueryKey(value)
    ensures IsHeaderName(value) || IsQueryKey(value) ==> IsCatalogToken(value)
    ensures IsCatalogToken(value) ==> Utf8.IsAscii(value) && forall c | c in value :: '!' <= c <= '~'
    ensures IsCatalogToken(value) || IsLicenseIdentity(value) ==> IsHeaderValue(value)
    ensures value != "" && (forall c | c in value :: IsAlphanumeric(c)) ==>
      IsCatalogToken(value) && IsLicenseIdentity(value)
  {
    if IsCatalogId(value) {
      IdsAreNames(value);
    }
    forall c | c in value
      ensures IsAlphanumeric(c) || c in "!#$%&'*+-.^_`|~:/" ==> '!' <= c <= '~'
      ensures IsAlphanumeric(c) || c in {'.', '-', '+', ' '} ==> ' ' <= c <= '~'
    {
      TokenCharacters(c);
    }
    hide IsCatalogId, IsAlphanumeric;
  }

  /** Lower case is what lowering leaves alone. */
  lemma {:induction false} LowercaseIff(value: string)
    ensures IsLowercase(value) <==> Text.Lower(value) == value
  {
    if value != "" {
      LowercaseIff(value[1..]);
      var first, rest := value[0], value[1..];
      assert value == [first] + rest && first in value && forall c | c in rest :: c in value;
      assert Text.Lower(value) == [Text.LowerChar(first)] + Text.Lower(rest);
      assert Text.Lower(value) == value ==> Text.Lower(value)[0] == first && Text.Lower(value)[1..] == rest;
    }
  }

  lemma {:induction false} SplitJoins(s: string, separator: char)
    ensures Join(Split(s, separator), separator) == s
    ensures forall part | part in Split(s, separator) :: separator !in part
  {
    if s != "" {
      var rest := Split(s[1..], separator);
      SplitJoins(s[1..], separator);
      var parts := Split(s, separator);
      assert s == [s[0]] + s[1..];
      if s[0] == separator {
        assert parts[1..] == rest;
      } else {
        assert parts[1..] == rest[1..] && parts[0] == [s[0]] + rest[0];
        forall part | part in parts ensures separator !in part {
          if part != parts[0] {
            assert part in parts[1..];
          }
        }
      }
    }
  }

  lemma {:induction false} JoinSplits(parts: seq<string>, separator: char)
    requires parts != [] && forall part | part in parts :: separator !in part
    ensures Split(Join(parts, separator), separator) == parts
    decreases |parts|, |parts[0]|
  {
    var s, first, rest := Join(parts, separator), parts[0], parts[1..];
    if first == "" {
      if rest != [] {
        assert s[1..] == Join(rest, separator);
        JoinSplits(rest, separator);
        assert parts == [""] + rest;
      } else {
        assert parts == [""];
      }
    } else {
      var shorter := [first[1..]] + rest;
      assert shorter[1..] == rest;
      assert first[0] in first;
      forall part | part in shorter ensures separator !in part {
        if part == first[1..] {
          assert forall c | c in first[1..] :: c in first;
        }
      }
      JoinSplits(shorter, separator);
      assert s[1..] == Join(shorter, separator);
      assert [first[0]] + first[1..] == first;
      assert parts == [first] + rest;
    }
  }

  /** A DNS name is 1 to 253 characters of labels with single dots between them. */
  lemma DnsNameIffLabels(value: string)
    ensures IsDnsName(value) <==>
      exists labels :: |labels| > 0 && (forall part | part in labels :: IsDnsLabel(part))
        && value == Join(labels, '.') && 0 < |value| <= 253
  {
    SplitJoins(value, '.');
    forall labels | |labels| > 0 && (forall part | part in labels :: IsDnsLabel(part)) && value == Join(labels, '.')
      ensures Split(value, '.') == labels
    {
      forall part | part in labels ensures '.' !in part {
        assert IsDnsLabel(part);
      }
      JoinSplits(labels, '.');
    }
  }

  lemma {:induction false} SplitKeepsCharacters(s: string, separator: char, c: char)
    requires c != separator
    ensures c in s <==> exists part | part in Split(s, separator) :: c in part
  {
    if s != "" {
      var rest := Split(s[1..], separator);
      SplitKeepsCharacters(s[1..], separator, c);
      assert s == [s[0]] + s[1..];
      assert rest == [rest[0]] + rest[1..];
      if s[0] == separator {
        assert Split(s, separator) == [""] + rest;
        assert forall part | part in rest :: part in Split(s, separator);
      } else {
        var first := [s[0]] + rest[0];
        assert Split(s, separator) == [first] + rest[1..];
        assert first in Split(s, separator) && forall part | part in rest[1..] :: part in Split(s, separator);
        assert c in first <==> c == s[0] || c in rest[0];
      }
    }
  }

  predicate IsSegment(segment: string) {
    && segment != "." && segment != ".."
    && forall c | c in segment :: c !in {'/', '?', '#', '\\'}
  }

  /** A path is accepted exactly when it is a list of segments after slashes, none of them a step up or in place. */
  lemma PathIffSegments(value: string)
    ensures IsPathTemplate(value) <==>
      exists segments :: |segments| > 0 && (forall segment | segment in segments :: IsSegment(segment))
        && value == "/" + Join(segments, '/')
  {
    if IsPathTemplate(value) {
      var segments := Split(value[1..], '/');
      assert Split(value, '/')[1..] == segments;
      SplitJoins(value[1..], '/');
      assert value == "/" + value[1..];
      forall segment | segment in segments ensures IsSegment(segment) {
        forall c | c in segment ensures c !in {'/', '?', '#', '\\'} {
          if c != '/' {
            SplitKeepsCharacters(value[1..], '/', c);
            assert c in value;
          }
        }
      }
    }
    forall segments |
      |segments| > 0 && (forall segment | segment in segments :: IsSegment(segment))
      && value == "/" + Join(segments, '/')
      ensures IsPathTemplate(value)
    {
      SegmentsMakeAPath(value, segments);
    }
  }

  lemma SegmentsMakeAPath(value: string, segments: seq<string>)
    requires segments != [] && forall segment | segment in segments :: IsSegment(segment)
    requires value == "/" + Join(segments, '/')
    ensures IsPathTemplate(value)
  {
    forall segment | segment in segments ensures '/' !in segment {
      assert IsSegment(segment);
    }
    JoinSplits(segments, '/');
    assert value[1..] == Join(segments, '/');
    assert Split(value, '/')[1..] == segments;
    forall c | c in value ensures c !in {'?', '#', '\\'} {
      if c != '/' {
        SplitKeepsCharacters(value[1..], '/', c);
        assert value == [value[0]] + value[1..];
        var segment :| segment in segments && c in segment;
        assert IsSegment(segment);
      }
    }
  }

  // ----- Everywhere in a manifest

  predicate OriginTexts(origin: FixedOrigin) {
    IsDnsName(origin.host) && (origin.networkPolicy.PrivateAllowed? ==> IsCatalogId(origin.networkPolicy.policy))
  }

  predicate AuthTexts(plan: AuthPlan) {
    match plan
    case FixedHeaderApiKey(_, header) => IsHeaderName(header)
    case FixedQueryApiKey(_, query) => IsQueryKey(query)
    case OAuth2ClientCredentials(_, _, _, _, scopes, pointer) =>
      (forall scope | scope in scopes :: IsCatalogToken(scope)) && ValidJsonPointer(pointer)
    case _ => true
  }

  predicate Revised(processor: Option<Processor>) { processor.Some? ==> processor.value.revision != 0 }

  predicate CredentialTexts(credential: Credential) {
    && Revised(credential.authProcessor)
    && (forall scope | scope in credential.scopes :: IsCatalogToken(scope))
    && AuthTexts(credential.authPlan)
  }

  predicate BindingTexts(binding: Binding) {
    IsCatalogId(binding.field) && (binding.mapping.Some? ==> IsCatalogToken(binding.mapping.value))
  }

  predicate ResponseTexts(response: Response) {
    match response
    case JsonMappings(mappings) => forall m | m in mappings :: ValidJsonPointer(m.pointer) && IsCatalogId(m.target)
    case RawTarget(target) => IsCatalogId(target)
  }

  predicate Ordered(range: StatusRange) { range.minimum <= range.maximum }

  predicate StepTexts(step: Step) {
    && step.httpMethod in {"DELETE", "GET", "HEAD", "OPTIONS", "PATCH", "POST", "PUT"}
    && IsPathTemplate(step.path)
    && (forall range | range in step.successStatuses :: Ordered(range))
    && (forall query | query in step.query :: IsQueryKey(query.name) && BindingTexts(query.binding))
    && (forall header | header in step.headers :: IsHeaderName(header.name) && BindingTexts(header.binding))
    && (forall field | field in BodyFields(step.request) :: IsCatalogId(field))
    && ResponseTexts(step.response)
    && (forall selected | selected in step.selectedHeaders :: IsHeaderName(selected.name))
  }

  predicate PaginationTexts(pagination: Pagination) {
    match pagination
    case NoPagination => true
    case ByProcessor(processor) => processor.revision != 0
    case Cursor(binding, pointer) => IsCatalogId(binding) && ValidJsonPointer(pointer)
    case OffsetLimit(offset, limit) => IsCatalogId(offset) && IsCatalogId(limit)
    case PageNumber(page, size) => IsCatalogId(page) && IsCatalogId(size)
    case LinkRelation(relation) => IsCatalogToken(relation)
  }

  predicate MatcherTexts(matcher: Matcher) {
    match matcher
    case ProviderCode(pointer, codes) =>
      ValidJsonPointer(pointer) && codes != [] && forall code | code in codes :: IsCatalogToken(code)
    case HeaderMatch(name, values) =>
      IsHeaderName(name) && values != [] && forall value | value in values :: IsHeaderValue(value)
    case Status(range) => Ordered(range)
    case MalformedDeclaredSuccess => true
  }

  predicate OperationTexts(operation: Operation) {
    && (forall p | p in operation.preRequestTransforms + operation.postResponseTransforms :: p.revision != 0)
    && Revised(operation.processor)
    && (forall origin | origin in operation.origins :: IsDnsName(origin.host))
    && (forall step | step in operation.steps :: StepTexts(step))
    && PaginationTexts(operation.pagination)
    && (forall rule | rule in operation.errorMap.rules :: MatcherTexts(rule.matcher))
  }

  predicate TriggerTexts(trigger: Trigger) {
    match trigger.source
    case Webhook(authenticator, codec, normalizer, headers, _) =>
      && authenticator.revision != 0 && codec.revision != 0 && normalizer.revision != 0
      && forall header | header in headers :: IsHeaderName(header)
    case Poll(processor) => processor.revision != 0
  }

  predicate ProvenanceTexts(reference: Provenance) {
    IsLicenseIdentity(reference.licenseId) && forall site | site in reference.factSites :: IsCatalogId(site)
  }

  predicate ManifestTexts(m: Manifest) {
    && IsCatalogId(m.provider) && IsCatalogId(m.apiIdentity)
    && (forall origin | origin in m.origins :: OriginTexts(origin))
    && (forall credential | credential in m.credentials :: CredentialTexts(credential))
    && (forall operation | operation in m.operations :: OperationTexts(operation))
    && (forall trigger | trigger in m.triggers :: TriggerTexts(trigger))
    && (forall reference | reference in m.provenance :: ProvenanceTexts(reference))
  }
}
