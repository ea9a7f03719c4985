/**
 * The X-MS-CLIENT-PRINCIPAL decoder: base 64 text to bytes, bytes to a JSON
 * document (the `parse` parameter), the document bound to an
 * MsClientPrincipal record, and the record turned into a claims principal
 * holding one identity.
 */
module ClientPrincipal {
  import opened Wrappers
  import opened Exceptions
  import opened Text
  import opened Json
  import Base64

  /** One `typ`/`val` entry of the `claims` array; either part may be null. */
  datatype MsClientPrincipalClaim = MsClientPrincipalClaim(typ: Option<string>, val: Option<string>)

  /** The decoded header. A null `claims` list and a null entry in it are both possible. */
  datatype MsClientPrincipal = MsClientPrincipal(
    identityProvider: Option<string>,
    nameClaimType: Option<string>,
    roleClaimType: Option<string>,
    claims: Option<seq<Option<MsClientPrincipalClaim>>>)

  /** System.Security.Claims.Claim: a type and a value, neither null. */
  datatype Claim = Claim(claimType: string, value: string)

  /**
   * System.Security.Claims.ClaimsIdentity. A name or role claim type of
   * None stands for the framework's default, which is not modelled.
   */
  datatype ClaimsIdentity = ClaimsIdentity(
    authenticationType: Option<string>,
    nameClaimType: Option<string>,
    roleClaimType: Option<string>,
    claims: seq<Claim>)

  datatype ClaimsPrincipal = ClaimsPrincipal(identities: seq<ClaimsIdentity>)

  /** The name or role claim type the ClaimsIdentity constructor keeps: a null or empty one becomes the default. */
  function IdentityClaimType(t: Option<string>): (r: Option<string>)
    ensures r.None? <==> t.None? || t == Some("")
    ensures r.Some? ==> r == t
  {
    if t == Some("") then None else t
  }

  // JSON property names given by the [JsonPropertyName] attributes.
  const AuthTypName: string := "auth_typ"
  const NameTypName: string := "name_typ"
  const RoleTypName: string := "role_typ"
  const ClaimsName: string := "claims"
  const TypName: string := "typ"
  const ValName: string := "val"

  const NullPrincipalMessage: string := "Failed to parse client principal"

  // .NET type names that appear in the deserializer's conversion errors.
  const StringTarget: string := "System.String"
  const ClaimTarget: string := "EasyAuth.Components.Models.MsClientPrincipalClaim"
  const ClaimsTarget: string := "System.Collections.Generic.IEnumerable`1[EasyAuth.Components.Models.MsClientPrincipalClaim]"
  const PrincipalTarget: string := "EasyAuth.Components.Models.MsClientPrincipal"

  const NoClaim: MsClientPrincipalClaim := MsClientPrincipalClaim(None, None)
  const NoPrincipal: MsClientPrincipal := MsClientPrincipal(None, None, None, None)

  /*
   * Binding a document to the records, as JsonSerializer does with
   * PropertyNameCaseInsensitive: members are read in document order, a
   * member whose name matches a property ignoring case sets it (so the last
   * of several wins), other members are skipped, and a value of the wrong
   * JSON kind throws a JsonException.
   */

  function ReadString(v: JsonValue): Result<Option<string>> {
    match v
    case JNull => Ok(None)
    case JString(s) => Ok(Some(s))
    case _ => Err(JsonException(ConversionMessage(StringTarget)))
  }

  function BindClaimMembers(ms: seq<Member>, acc: MsClientPrincipalClaim): Result<MsClientPrincipalClaim> {
    if ms == [] then Ok(acc)
    else
      var m := ms[0];
      if EqualsIgnoreCase(m.name, TypName) then
        var s := ReadString(m.value);
        if s.Err? then Err(s.error) else BindClaimMembers(ms[1..], acc.(typ := s.value))
      else if EqualsIgnoreCase(m.name, ValName) then
        var s := ReadString(m.value);
        if s.Err? then Err(s.error) else BindClaimMembers(ms[1..], acc.(val := s.value))
      else BindClaimMembers(ms[1..], acc)
  }

  function ReadClaim(v: JsonValue): Result<Option<MsClientPrincipalClaim>> {
    match v
    case JNull => Ok(None)
    case JObject(ms) =>
      var c := BindClaimMembers(ms, NoClaim);
      if c.Err? then Err(c.error) else Ok(Some(c.value))
    case _ => Err(JsonException(ConversionMessage(ClaimTarget)))
  }

  function ReadClaimItems(items: seq<JsonValue>): Result<seq<Option<MsClientPrincipalClaim>>> {
    if items == [] then Ok([])
    else
      var c := ReadClaim(items[0]);
      if c.Err? then Err(c.error)
      else
        var rest := ReadClaimItems(items[1..]);
        if rest.Err? then Err(rest.error) else Ok([c.value] + rest.value)
  }

  function ReadClaims(v: JsonValue): Result<Option<seq<Option<MsClientPrincipalClaim>>>> {
    match v
    case JNull => Ok(None)
    case JArray(items) =>
      var cs := ReadClaimItems(items);
      if cs.Err? then Err(cs.error) else Ok(Some(cs.value))
    case _ => Err(JsonException(ConversionMessage(ClaimsTarget)))
  }

  function BindMembers(ms: seq<Member>, acc: MsClientPrincipal): Result<MsClientPrincipal> {
    if ms == [] then Ok(acc)
    else
      var m := ms[0];
      if EqualsIgnoreCase(m.name, AuthTypName) then
        var s := ReadString(m.value);
        if s.Err? then Err(s.error) else BindMembers(ms[1..], acc.(identityProvider := s.value))
      else if EqualsIgnoreCase(m.name, NameTypName) then
        var s := ReadString(m.value);
        if s.Err? then Err(s.error) else BindMembers(ms[1..], acc.(nameClaimType := s.value))
      else if EqualsIgnoreCase(m.name, RoleTypName) then
        var s := ReadString(m.value);
        if s.Err? then Err(s.error) else BindMembers(ms[1..], acc.(roleClaimType := s.value))
      else if EqualsIgnoreCase(m.name, ClaimsName) then
        var cs := ReadClaims(m.value);
        if cs.Err? then Err(cs.error) else BindMembers(ms[1..], acc.(claims := cs.value))
      else BindMembers(ms[1..], acc)
  }

  /** JsonSerializer.Deserialize<MsClientPrincipal>: Ok(None) for the literal `null`. */
  function Deserialize(doc: JsonValue): Result<Option<MsClientPrincipal>> {
    match doc
    case JNull => Ok(None)
    case JObject(ms) =>
      var p := BindMembers(ms, NoPrincipal);
      if p.Err? then Err(p.error) else Ok(Some(p.value))
    case _ => Err(JsonException(ConversionMessage(PrincipalTarget)))
  }

  /*
   * Reference definition of the binding: each property is the value of the
   * LAST member whose name matches it ignoring case, or stays as it was when
   * no member matches.
   */

  /** Value of the last member of `ms` named `key`, ignoring case. */
  function LastMember(ms: seq<Member>, key: string): (r: Option<JsonValue>)
    ensures r.None? <==> forall i :: 0 <= i < |ms| ==> !EqualsIgnoreCase(ms[i].name, key)
    ensures r.Some? ==> exists i :: (0 <= i < |ms| && EqualsIgnoreCase(ms[i].name, key) && ms[i].value == r.value
      && forall j :: i < j < |ms| ==> !EqualsIgnoreCase(ms[j].name, key))
  {
    if ms == [] then None
    else
      var later := LastMember(ms[1..], key);
      if later.Some? then
        assert forall j :: 0 <= j < |ms| - 1 ==> ms[1..][j] == ms[j + 1];
        later
      else if EqualsIgnoreCase(ms[0].name, key) then
        assert forall j :: 0 < j < |ms| ==> ms[j] == ms[1..][j - 1];
        Some(ms[0].value)
      else
        assert forall j :: 0 < j < |ms| ==> ms[j] == ms[1..][j - 1];
        None
  }

  function StringMember(ms: seq<Member>, key: string, default: Option<string>): Option<string> {
    match LastMember(ms, key)
    case None => default
    case Some(v) => var s := ReadString(v); if s.Ok? then s.value else None
  }

  function ClaimsMember(ms: seq<Member>, default: Option<seq<Option<MsClientPrincipalClaim>>>)
    : Option<seq<Option<MsClientPrincipalClaim>>>
  {
    match LastMember(ms, ClaimsName)
    case None => default
    case Some(v) => var cs := ReadClaims(v); if cs.Ok? then cs.value else None
  }

  /** A member the principal binding can read: a known property with a value of the right kind, or an unknown one. */
  predicate PrincipalMemberReadable(m: Member) {
    && ((EqualsIgnoreCase(m.name, AuthTypName) || EqualsIgnoreCase(m.name, NameTypName)
         || EqualsIgnoreCase(m.name, RoleTypName)) ==> ReadString(m.value).Ok?)
    && (EqualsIgnoreCase(m.name, ClaimsName) ==> ReadClaims(m.value).Ok?)
  }

  predicate ClaimMemberReadable(m: Member) {
    (EqualsIgnoreCase(m.name, TypName) || EqualsIgnoreCase(m.name, ValName)) ==> ReadString(m.value).Ok?
  }

  /** A document that binds to a principal: an object all of whose members can be read. */
  predicate IsPrincipalDocument(doc: JsonValue) {
    doc.JObject? && forall i :: 0 <= i < |doc.members| ==> PrincipalMemberReadable(doc.members[i])
  }

  /** The principal a readable object describes. */
  function FromMembers(ms: seq<Member>): MsClientPrincipal {
    MsClientPrincipal(
      StringMember(ms, AuthTypName, None),
      StringMember(ms, NameTypName, None),
      StringMember(ms, RoleTypName, None),
      ClaimsMember(ms, None))
  }

  /** Names equal ignoring case match the same property names. */
  lemma SameMatches(a: string, b: string, key: string)
    requires EqualsIgnoreCase(a, b)
    ensures EqualsIgnoreCase(a, key) <==> EqualsIgnoreCase(b, key)
  {
  }

  /** No member name matches two of the principal's properties. */
  lemma PrincipalNamesExclusive(name: string)
    ensures EqualsIgnoreCase(name, AuthTypName) ==> !EqualsIgnoreCase(name, NameTypName) && !EqualsIgnoreCase(name, RoleTypName) && !EqualsIgnoreCase(name, ClaimsName)
    ensures EqualsIgnoreCase(name, NameTypName) ==> !EqualsIgnoreCase(name, RoleTypName) && !EqualsIgnoreCase(name, ClaimsName)
    ensures EqualsIgnoreCase(name, RoleTypName) ==> !EqualsIgnoreCase(name, ClaimsName)
  {
    if EqualsIgnoreCase(name, AuthTypName) {
      assert ToUpperAscii(name[0]) == 'A';
    }
    if EqualsIgnoreCase(name, NameTypName) {
      assert ToUpperAscii(name[0]) == 'N';
    }
    if EqualsIgnoreCase(name, RoleTypName) {
      assert ToUpperAscii(name[0]) == 'R';
    }
  }

  lemma ClaimNamesExclusive(name: string)
    ensures EqualsIgnoreCase(name, TypName) ==> !EqualsIgnoreCase(name, ValName)
  {
    if EqualsIgnoreCase(name, TypName) {
      assert ToUpperAscii(name[0]) == 'T';
    }
  }

  lemma LastMemberStep(ms: seq<Member>, key: string)
    requires ms != []
    ensures LastMember(ms, key) ==
      if LastMember(ms[1..], key).Some? then LastMember(ms[1..], key)
      else if EqualsIgnoreCase(ms[0].name, key) then Some(ms[0].value)
      else None
  {
  }

  /** One member read: the property it names takes its value, the others keep theirs. */
  lemma StringMemberStep(ms: seq<Member>, key: string, default: Option<string>)
    requires ms != []
    requires EqualsIgnoreCase(ms[0].name, key) ==> ReadString(ms[0].value).Ok?
    ensures StringMember(ms, key, default) ==
      StringMember(ms[1..], key, if EqualsIgnoreCase(ms[0].name, key) then ReadString(ms[0].value).value else default)
  {
    LastMemberStep(ms, key);
  }

  lemma ClaimsMemberStep(ms: seq<Member>, default: Option<seq<Option<MsClientPrincipalClaim>>>)
    requires ms != []
    requires EqualsIgnoreCase(ms[0].name, ClaimsName) ==> ReadClaims(ms[0].value).Ok?
    ensures ClaimsMember(ms, default) ==
      ClaimsMember(ms[1..], if EqualsIgnoreCase(ms[0].name, ClaimsName) then ReadClaims(ms[0].value).value else default)
  {
    LastMemberStep(ms, ClaimsName);
  }

  lemma {:induction false} BindMembersSpec(ms: seq<Member>, acc: MsClientPrincipal)
    ensures BindMembers(ms, acc).Ok? <==> forall i :: 0 <= i < |ms| ==> PrincipalMemberReadable(ms[i])
    ensures BindMembers(ms, acc).Ok? ==> BindMembers(ms, acc).value == MsClientPrincipal(
      StringMember(ms, AuthTypName, acc.identityProvider),
      StringMember(ms, NameTypName, acc.nameClaimType),
      StringMember(ms, RoleTypName, acc.roleClaimType),
      ClaimsMember(ms, acc.claims))
    decreases |ms|
  {
    if ms != [] {
      var m, rest := ms[0], ms[1..];
      assert forall j :: 0 < j < |ms| ==> ms[j] == rest[j - 1];
      PrincipalNamesExclusive(m.name);
      if PrincipalMemberReadable(m) {
        var next :=
          if EqualsIgnoreCase(m.name, AuthTypName) then acc.(identityProvider := ReadString(m.value).value)
          else if EqualsIgnoreCase(m.name, NameTypName) then acc.(nameClaimType := ReadString(m.value).value)
          else if EqualsIgnoreCase(m.name, RoleTypName) then acc.(roleClaimType := ReadString(m.value).value)
          else if EqualsIgnoreCase(m.name, ClaimsName) then acc.(claims := ReadClaims(m.value).value)
          else acc;
        assert BindMembers(ms, acc) == BindMembers(rest, next);
        BindMembersSpec(rest, next);
        StringMemberStep(ms, AuthTypName, acc.identityProvider);
        StringMemberStep(ms, NameTypName, acc.nameClaimType);
        StringMemberStep(ms, RoleTypName, acc.roleClaimType);
        ClaimsMemberStep(ms, acc.claims);
      } else {
        assert BindMembers(ms, acc).Err?;
      }
    }
  }

  lemma {:induction false} BindClaimMembersSpec(ms: seq<Member>, acc: MsClientPrincipalClaim)
    ensures BindClaimMembers(ms, acc).Ok? <==> forall i :: 0 <= i < |ms| ==> ClaimMemberReadable(ms[i])
    ensures BindClaimMembers(ms, acc).Ok? ==> BindClaimMembers(ms, acc).value == MsClientPrincipalClaim(
      StringMember(ms, TypName, acc.typ),
      StringMember(ms, ValName, acc.val))
    decreases |ms|
  {
    if ms != [] {
      var m, rest := ms[0], ms[1..];
      assert forall j :: 0 < j < |ms| ==> ms[j] == rest[j - 1];
      ClaimNamesExclusive(m.name);
      if ClaimMemberReadable(m) {
        var next :=
          if EqualsIgnoreCase(m.name, TypName) then acc.(typ := ReadString(m.value).value)
          else if EqualsIgnoreCase(m.name, ValName) then acc.(val := ReadString(m.value).value)
          else acc;
        assert BindClaimMembers(ms, acc) == BindClaimMembers(rest, next);
        BindClaimMembersSpec(rest, next);
        StringMemberStep(ms, TypName, acc.typ);
        StringMemberStep(ms, ValName, acc.val);
      } else {
        assert BindClaimMembers(ms, acc).Err?;
      }
    }
  }

  /**
   * Deserializing succeeds exactly on `null` and on readable objects; `null`
   * and only `null` gives no record; an object gives the record of its last
   * matching members, with absent properties left null.
   */
  lemma DeserializeSpec(doc: JsonValue)
    ensures Deserialize(doc) == Ok(None) <==> doc == JNull
    ensures Deserialize(doc).Ok? <==> doc == JNull || IsPrincipalDocument(doc)
    ensures IsPrincipalDocument(doc) ==> Deserialize(doc) == Ok(Some(FromMembers(doc.members)))
  {
    if doc.JObject? {
      BindMembersSpec(doc.members, NoPrincipal);
    }
  }

  /**
   * Property names are matched ignoring case: members renamed only in the
   * case of their names bind to the same record, or fail alike.
   */
  lemma {:induction false} BindMembersIgnoresCase(ms: seq<Member>, ms': seq<Member>, acc: MsClientPrincipal)
    requires |ms| == |ms'|
    requires forall i :: 0 <= i < |ms| ==> EqualsIgnoreCase(ms[i].name, ms'[i].name) && ms[i].value == ms'[i].value
    ensures BindMembers(ms, acc) == BindMembers(ms', acc)
    decreases |ms|
  {
    if ms != [] {
      var m, m' := ms[0], ms'[0];
      SameMatches(m.name, m'.name, AuthTypName);
      SameMatches(m.name, m'.name, NameTypName);
      SameMatches(m.name, m'.name, RoleTypName);
      SameMatches(m.name, m'.name, ClaimsName);
      var rest, rest' := ms[1..], ms'[1..];
      assert forall i :: 0 <= i < |rest| ==> rest[i] == ms[i + 1] && rest'[i] == ms'[i + 1];
      var next :=
        if EqualsIgnoreCase(m.name, AuthTypName) then acc.(identityProvider := ReadString(m.value).GetOr(None))
        else if EqualsIgnoreCase(m.name, NameTypName) then acc.(nameClaimType := ReadString(m.value).GetOr(None))
        else if EqualsIgnoreCase(m.name, RoleTypName) then acc.(roleClaimType := ReadString(m.value).GetOr(None))
        else if EqualsIgnoreCase(m.name, ClaimsName) then acc.(claims := ReadClaims(m.value).GetOr(None))
        else acc;
      BindMembersIgnoresCase(rest, rest', next);
    }
  }

  /** The document-level form: case changes in member names never change the outcome. */
  lemma DeserializeIgnoresCase(ms: seq<Member>, ms': seq<Member>)
    requires |ms| == |ms'|
    requires forall i :: 0 <= i < |ms| ==> EqualsIgnoreCase(ms[i].name, ms'[i].name) && ms[i].value == ms'[i].value
    ensures Deserialize(JObject(ms)) == Deserialize(JObject(ms'))
  {
    BindMembersIgnoresCase(ms, ms', NoPrincipal);
  }

  /*
   * Serialization (JsonSerializer.Serialize of the record): the four
   * properties in declaration order under their attribute names, nulls
   * written as `null`.
   */

  function StringToJson(s: Option<string>): JsonValue {
    match s
    case None => JNull
    case Some(t) => JString(t)
  }

  function ClaimToJson(c: Option<MsClientPrincipalClaim>): JsonValue {
    match c
    case None => JNull
    case Some(cl) => JObject([Member(TypName, StringToJson(cl.typ)), Member(ValName, StringToJson(cl.val))])
  }

  function ClaimsToJson(cs: seq<Option<MsClientPrincipalClaim>>): (items: seq<JsonValue>)
    ensures |items| == |cs|
  {
    if cs == [] then [] else [ClaimToJson(cs[0])] + ClaimsToJson(cs[1..])
  }

  function ToJson(p: MsClientPrincipal): JsonValue {
    JObject([
      Member(AuthTypName, StringToJson(p.identityProvider)),
      Member(NameTypName, StringToJson(p.nameClaimType)),
      Member(RoleTypName, StringToJson(p.roleClaimType)),
      Member(ClaimsName, match p.claims case None => JNull case Some(cs) => JArray(ClaimsToJson(cs)))])
  }

  lemma ReadStringToJson(s: Option<string>)
    ensures ReadString(StringToJson(s)) == Ok(s)
  {
  }

  lemma ReadClaimToJson(c: Option<MsClientPrincipalClaim>)
    ensures ReadClaim(ClaimToJson(c)) == Ok(c)
  {
    if c.Some? {
      var ms := [Member(TypName, StringToJson(c.value.typ)), Member(ValName, StringToJson(c.value.val))];
      var c1 := NoClaim.(typ := c.value.typ);
      assert !EqualsIgnoreCase(ValName, TypName) by { assert ToUpperAscii(ValName[0]) != ToUpperAscii(TypName[0]); }
      assert ms[1..][1..] == [];
      assert BindClaimMembers(ms[1..], c1) == BindClaimMembers(ms[1..][1..], c1.(val := c.value.val));
      assert BindClaimMembers(ms, NoClaim) == BindClaimMembers(ms[1..], c1);
    }
  }

  lemma {:induction false} ReadClaimItemsToJson(cs: seq<Option<MsClientPrincipalClaim>>)
    ensures ReadClaimItems(ClaimsToJson(cs)) == Ok(cs)
    decreases |cs|
  {
    if cs != [] {
      var items := ClaimsToJson(cs);
      assert items[0] == ClaimToJson(cs[0]) && items[1..] == ClaimsToJson(cs[1..]);
      ReadClaimToJson(cs[0]);
      ReadClaimItemsToJson(cs[1..]);
      assert cs == [cs[0]] + cs[1..];
    }
  }

  /** Serializing a principal and deserializing the document gives the principal back. */
  lemma DeserializeToJson(p: MsClientPrincipal)
    ensures Deserialize(ToJson(p)) == Ok(Some(p))
  {
    var ms := ToJson(p).members;
    PrincipalNamesExclusive(AuthTypName);
    PrincipalNamesExclusive(NameTypName);
    PrincipalNamesExclusive(RoleTypName);
    assert !EqualsIgnoreCase(NameTypName, AuthTypName);
    assert !EqualsIgnoreCase(RoleTypName, AuthTypName) && !EqualsIgnoreCase(RoleTypName, NameTypName);
    assert !EqualsIgnoreCase(ClaimsName, AuthTypName) && !EqualsIgnoreCase(ClaimsName, NameTypName)
      && !EqualsIgnoreCase(ClaimsName, RoleTypName);
    ReadStringToJson(p.identityProvider);
    ReadStringToJson(p.nameClaimType);
    ReadStringToJson(p.roleClaimType);
    if p.claims.Some? {
      ReadClaimItemsToJson(p.claims.value);
    }
    var p1 := NoPrincipal.(identityProvider := p.identityProvider);
    var p2 := p1.(nameClaimType := p.nameClaimType);
    var p3 := p2.(roleClaimType := p.roleClaimType);
    assert BindMembers(ms[3..], p3) == Ok(p);
    assert ms[2..][1..] == ms[3..];
    assert BindMembers(ms[2..], p2) == Ok(p);
    assert ms[1..][1..] == ms[2..];
    assert BindMembers(ms[1..], p1) == Ok(p);
  }

  /*
   * MsClientPrincipal.ParseMsClientPrincipal and ParseClaimsPrincipal.
   * `parse` stands for System.Text.Json reading the decoded bytes into a
   * document; it returns its JsonException on text that is not JSON.
   */

  /**
   * Base 64 decoding, parsing, binding and the null check, each failure
   * surfacing as the exception `MsClientPrincipal.ParseMsClientPrincipal`
   * throws.
   */
  function ParseMsClientPrincipal(value: string, parse: seq<Base64.byte> -> Result<JsonValue>)
    : (r: Result<MsClientPrincipal>)
    ensures !Base64.IsBase64(value) ==> r == Err(FormatException(InvalidBase64Message))
    ensures match Base64.Decode(value)
      case None => r == Err(FormatException(InvalidBase64Message))
      case Some(bytes) =>
        match parse(bytes)
        case Err(e) => r == Err(e)
        case Ok(doc) =>
          && (doc == JNull ==> r == Err(InvalidOperationException(NullPrincipalMessage)))
          && (r.Ok? <==> IsPrincipalDocument(doc))
          && (r.Ok? ==> r.value == FromMembers(doc.members))
  {
    Base64.DecodeSucceedsIff(value);
    match Base64.Decode(value)
    case None => Err(FormatException(InvalidBase64Message))
    case Some(bytes) =>
      var doc := parse(bytes);
      if doc.Err? then Err(doc.error)
      else
        DeserializeSpec(doc.value);
        var p := Deserialize(doc.value);
        if p.Err? then Err(p.error)
        else if p.value.None? then Err(InvalidOperationException(NullPrincipalMessage))
        else Ok(p.value.value)
  }

  /** The claim list of a principal, a null list read as empty. */
  function ClaimEntries(p: MsClientPrincipal): seq<Option<MsClientPrincipalClaim>> {
    p.claims.GetOr([])
  }

  /** An entry that `new Claim(c.Type!, c.Value!)` accepts. */
  predicate IsComplete(c: Option<MsClientPrincipalClaim>) {
    c.Some? && c.value.typ.Some? && c.value.val.Some?
  }

  function ToClaim(c: Option<MsClientPrincipalClaim>): Claim
    requires IsComplete(c)
  {
    Claim(c.value.typ.value, c.value.val.value)
  }

  /** What building a claim from an incomplete entry throws. */
  function EntryError(c: Option<MsClientPrincipalClaim>): Exception
    requires !IsComplete(c)
  {
    if c.None? then NullReferenceException(NullReferenceMessage)
    else if c.value.typ.None? then ArgumentNullException(ArgumentNullMessage("type"))
    else ArgumentNullException(ArgumentNullMessage("value"))
  }

  /**
   * The claims AddClaims receives from the Select: one per entry, in order,
   * type and value verbatim; the first incomplete entry throws.
   */
  function MakeClaims(entries: seq<Option<MsClientPrincipalClaim>>): (r: Result<seq<Claim>>)
    ensures r.Ok? <==> forall i :: 0 <= i < |entries| ==> IsComplete(entries[i])
    ensures r.Ok? ==> (|r.value| == |entries|
      && forall i :: 0 <= i < |entries| ==> IsComplete(entries[i]) && r.value[i] == ToClaim(entries[i]))
    ensures r.Err? ==> exists k :: (0 <= k < |entries| && !IsComplete(entries[k]) && r.error == EntryError(entries[k])
      && forall j :: 0 <= j < k ==> IsComplete(entries[j]))
  {
    if entries == [] then Ok([])
    else if !IsComplete(entries[0]) then Err(EntryError(entries[0]))
    else
      var rest := MakeClaims(entries[1..]);
      assert forall j :: 0 < j < |entries| ==> entries[j] == entries[1..][j - 1];
      if rest.Err? then
        ghost var k :| 0 <= k < |entries[1..]| && !IsComplete(entries[1..][k]) && rest.error == EntryError(entries[1..][k])
          && forall j :: 0 <= j < k ==> IsComplete(entries[1..][j]);
        assert 0 <= k + 1 < |entries| && !IsComplete(entries[k + 1]) && rest.error == EntryError(entries[k + 1]);
        Err(rest.error)
      else Ok([ToClaim(entries[0])] + rest.value)
  }

  /**
   * The identity carries the principal's provider, name claim type and role
   * claim type and one claim per entry in order; the result wraps exactly
   * that identity. It fails whenever ParseMsClientPrincipal fails, with the
   * same exception, and otherwise exactly when some entry is incomplete.
   */
  function ParseClaimsPrincipal(value: string, parse: seq<Base64.byte> -> Result<JsonValue>)
    : (r: Result<ClaimsPrincipal>)
    ensures ParseMsClientPrincipal(value, parse).Err? ==> r == Err(ParseMsClientPrincipal(value, parse).error)
    ensures r.Ok? <==> (ParseMsClientPrincipal(value, parse).Ok?
      && var entries := ClaimEntries(ParseMsClientPrincipal(value, parse).value);
         forall i :: 0 <= i < |entries| ==> IsComplete(entries[i]))
    ensures r.Ok? ==>
      var p := ParseMsClientPrincipal(value, parse).value;
      var entries := ClaimEntries(p);
      && |r.value.identities| == 1
      && r.value.identities[0].authenticationType == p.identityProvider
      && r.value.identities[0].nameClaimType == IdentityClaimType(p.nameClaimType)
      && r.value.identities[0].roleClaimType == IdentityClaimType(p.roleClaimType)
      && |r.value.identities[0].claims| == |entries|
      && forall i :: 0 <= i < |entries| ==> IsComplete(entries[i]) && r.value.identities[0].claims[i] == ToClaim(entries[i])
  {
    var principal := ParseMsClientPrincipal(value, parse);
    if principal.Err? then Err(principal.error)
    else
      var p := principal.value;
      var identity := ClaimsIdentity(
        p.identityProvider, IdentityClaimType(p.nameClaimType), IdentityClaimType(p.roleClaimType), []);
      if p.claims.Some? && |p.claims.value| > 0 then
        var claims := MakeClaims(p.claims.value);
        assert ClaimEntries(p) == p.claims.value;
        if claims.Err? then Err(claims.error)
        else Ok(ClaimsPrincipal([identity.(claims := claims.value)]))
      else Ok(ClaimsPrincipal([identity]))
  }

  /** A null or empty `claims` list gives an identity with no claims. */
  lemma NoEntriesNoClaims(value: string, parse: seq<Base64.byte> -> Result<JsonValue>)
    requires ParseMsClientPrincipal(value, parse).Ok?
    requires ParseMsClientPrincipal(value, parse).value.claims in {None, Some([])}
    ensures ParseClaimsPrincipal(value, parse).Ok?
    ensures ParseClaimsPrincipal(value, parse).value.identities[0].claims == []
  {
  }

  /**
   * End to end: a header carrying the base 64 encoding of bytes that parse
   * to a principal's serialized form decodes to that very principal.
   */
  lemma HeaderRoundTrip(p: MsClientPrincipal, bytes: seq<Base64.byte>, parse: seq<Base64.byte> -> Result<JsonValue>)
    requires parse(bytes) == Ok(ToJson(p))
    ensures ParseMsClientPrincipal(Base64.Encode(bytes), parse) == Ok(p)
  {
    Base64.DecodeEncode(bytes);
    DeserializeToJson(p);
    DeserializeSpec(ToJson(p));
  }
}
