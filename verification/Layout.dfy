/** Physical keys and the list cursor (layout.py). */
module Layout {
  import opened Wrappers
  import opened Streams
  import opened Base64Url
  import opened Json
  import opened Order

  // ---------------------------------------------------------------- the list cursor

  datatype CursorError = InvalidCursor

  const MAX_CURSOR: nat := 2048
  const MAX_SUFFIX: nat := 1024

  const OPENING := "{\"last\":\""
  const CLOSING := ",\"v\":1}"

  function Ascii(text: string): bytes
    requires forall c | c in text :: c as int < 128
  {
    seq(|text|, i requires 0 <= i < |text| => (assert text[i] in text; text[i] as int as byte))
  }

  /** ASCII bytes as text. */
  function Characters(raw: bytes): (text: Option<string>)
    ensures text.Some? <==> forall b | b in raw :: b < 128
  {
    if forall b | b in raw :: b < 128
    then Some(seq(|raw|, i requires 0 <= i < |raw| => raw[i] as int as char))
    else None
  }

  /** The compact cursor object whose `last` member is written as this literal. */
  function CursorText(literal: string): string {
    OPENING + literal + ['"'] + CLOSING
  }

  /** The compact JSON object {"last": suffix, "v": 1}. */
  function CursorJson(suffix: string): (json: string)
    ensures forall c | c in json :: c as int < 128
  {
    CursorText(Escape(suffix))
  }

  function EncodeCursor(suffix: string): string {
    StripPadding(EncodePadded(Ascii(CursorJson(suffix))))
  }

  /** The `last` member of a compact cursor object. */
  function ParseCursor(json: string): Option<string> {
    if OPENING <= json then
      var last := ReadLiteral(json[|OPENING|..]);
      if last.Some? && last.value.1 == CLOSING then Some(last.value.0) else None
    else None
  }

  function DecodeCursor(value: string): (r: Result<string, CursorError>)
    ensures r.Ok? ==> |r.value| <= MAX_SUFFIX && '/' in r.value
  {
    if value == "" || |value| > MAX_CURSOR then Err(InvalidCursor)
    else
      var raw := DecodePadded(Repad(value));
      if raw.None? then Err(InvalidCursor)
      else
        var json := Characters(raw.value);
        var last := if json.Some? then ParseCursor(json.value) else None;
        if last.None? || |last.value| > MAX_SUFFIX || '/' !in last.value then Err(InvalidCursor)
        else Ok(last.value)
  }

  /** The longest JSON text whose base64url encoding stays within the bound of a cursor. */
  const MAX_CURSOR_JSON: nat := 1536

  /** Suffixes that a cursor can carry: escaping must not make them too long. */
  predicate Cursorable(suffix: string) {
    |suffix| <= MAX_SUFFIX && '/' in suffix && |CursorJson(suffix)| <= MAX_CURSOR_JSON
  }

  lemma PlainConcat(a: string, b: string)
    requires Plain(a) && Plain(b)
    ensures Plain(a + b)
  {
  }

  lemma PlainPunctuation()
    ensures Plain("/") && Plain(".json")
  {
  }

  lemma HexIsPlain(text: string)
    requires HexText(text)
    ensures Plain(text)
  {
  }

  lemma AsciiRoundTrip(text: string)
    requires forall c | c in text :: c as int < 128
    ensures Characters(Ascii(text)) == Some(text)
  {
    forall b | b in Ascii(text)
      ensures b < 128
    {
      var i :| 0 <= i < |text| && Ascii(text)[i] == b;
      assert text[i] in text;
    }
    var read := Characters(Ascii(text));
    assert read.value == text;
  }

  /** What is written as a cursor object parses as what it was made from. */
  lemma JsonRoundTrip(suffix: string)
    ensures CursorJson(suffix) != "" && ParseCursor(CursorJson(suffix)) == Some(suffix)
  {
    var json := CursorJson(suffix);
    assert json == OPENING + (Escape(suffix) + ['"'] + CLOSING);
    assert json[|OPENING|..] == Escape(suffix) + ['"'] + CLOSING;
    LiteralRoundTrip(suffix, CLOSING);
  }

  /** A cursor decodes to what it was made from exactly when it is one that decoding admits. */
  lemma CursorRoundTrip(suffix: string)
    ensures DecodeCursor(EncodeCursor(suffix)) == if Cursorable(suffix) then Ok(suffix) else Err(InvalidCursor)
  {
    hide Ascii, Characters, CursorJson, ParseCursor, EncodePadded, DecodePadded, StripPadding, Repad;
    var json := CursorJson(suffix);
    var raw := Ascii(json);
    JsonRoundTrip(suffix);
    AsciiRoundTrip(json);
    AsciiSize(json);
    DecodeEncodePadded(raw);
    RepadStripped(raw);
    assert StrippedSize(|json|) <= MAX_CURSOR <==> |json| <= MAX_CURSOR_JSON;
  }

  lemma AsciiSize(text: string)
    requires forall c | c in text :: c as int < 128
    ensures |Ascii(text)| == |text|
  {
  }

  predicate AllAscii(text: string) {
    forall c | c in text :: c as int < 128
  }

  /** The value is base64url of the cursor object with this literal, which spells the suffix. */
  ghost predicate Carries(value: string, literal: string, suffix: string) {
    && AllAscii(CursorText(literal)) && Spells(literal, suffix)
    && SameBits(Repad(value), EncodePadded(Ascii(CursorText(literal))))
  }

  lemma CharactersAreAscii(raw: bytes)
    requires Characters(raw).Some?
    ensures AllAscii(Characters(raw).value) && Ascii(Characters(raw).value) == raw
  {
    var text := Characters(raw).value;
    forall i | 0 <= i < |raw|
      ensures text[i] as int < 128 && text[i] as int as byte == raw[i]
    {
      assert raw[i] in raw;
    }
    assert Ascii(text) == raw;
  }

  /** Parsing accepts exactly the compact object with the two members, and gives what its literal spells. */
  lemma ParsesIff(json: string, suffix: string)
    ensures ParseCursor(json) == Some(suffix) <==>
            exists literal :: Spells(literal, suffix) && json == CursorText(literal)
  {
    hide Spells, ReadLiteral;
    if ParseCursor(json) == Some(suffix) {
      var text := json[|OPENING|..];
      LiteralReadsIff(text, suffix, CLOSING);
      var literal :| Spells(literal, suffix) && text == literal + ['"'] + CLOSING;
      assert json == OPENING + text;
      assert OPENING + (literal + ['"'] + CLOSING) == CursorText(literal);
    }
    if exists literal :: Spells(literal, suffix) && json == CursorText(literal) {
      var literal :| Spells(literal, suffix) && json == CursorText(literal);
      var text := literal + ['"'] + CLOSING;
      assert json == OPENING + text && json[|OPENING|..] == text;
      LiteralReadsIff(text, suffix, CLOSING);
    }
  }

  /**
   * Which values are cursors, exactly: those within the bounds that are base64url of the compact object with a `last`
   * member, spelled in any way, and version 1. Everything else is refused.
   */
  lemma CursorDecodesIff(value: string, suffix: string)
    ensures DecodeCursor(value) == Ok(suffix) <==>
            && value != "" && |value| <= MAX_CURSOR && |suffix| <= MAX_SUFFIX && '/' in suffix
            && exists literal :: Carries(value, literal, suffix)
  {
    hide ParseCursor, CursorText, Spells, SameBits, DecodePadded, EncodePadded, Repad, Characters, Ascii;
    var raw := DecodePadded(Repad(value));
    if DecodeCursor(value) == Ok(suffix) {
      var json := Characters(raw.value).value;
      CharactersAreAscii(raw.value);
      DecodesIff(Repad(value), raw.value);
      ParsesIff(json, suffix);
      var literal :| Spells(literal, suffix) && json == CursorText(literal);
      assert Carries(value, literal, suffix);
    }
    if exists literal :: Carries(value, literal, suffix) {
      var literal :| Carries(value, literal, suffix);
      var json := CursorText(literal);
      DecodesIff(Repad(value), Ascii(json));
      AsciiRoundTrip(json);
      ParsesIff(json, suffix);
    }
  }

  // ---------------------------------------------------------------- keys

  /** What a key stands for; digests are given by their 64 hexadecimal characters. */
  datatype Key =
    | Blob(resource: string, objectId: string, hex: string)
    | Reference(resource: string, objectId: string, hex: string)
    | Latest(resource: string, objectId: string)
    | Schema(identity: string)
    | Registration(resource: string)
    | Orphan(resource: string, objectId: string, hex: string)
    | Deletion(resource: string, objectId: string, hex: string)
    | Migration

  const TOKEN_LENGTH: nat := 64

  predicate HexText(text: string) {
    |text| == TOKEN_LENGTH && forall c | c in text :: '0' <= c <= '9' || 'a' <= c <= 'f'
  }

  const DIGEST_PREFIX := "sha256:"

  /** The hexadecimal part of a digest, or nothing when the digest is malformed. */
  function DigestHex(digest: string): (hex: Option<string>)
    ensures hex.Some? <==> exists h :: HexText(h) && digest == DIGEST_PREFIX + h
    ensures hex.Some? ==> HexText(hex.value) && digest == DIGEST_PREFIX + hex.value
  {
    var n := |DIGEST_PREFIX|;
    if |digest| >= n && digest[..n] == DIGEST_PREFIX && HexText(digest[n..])
    then (assert digest == DIGEST_PREFIX + digest[n..]; Some(digest[n..]))
    else (assert forall h :: digest == DIGEST_PREFIX + h ==> digest[..n] == DIGEST_PREFIX && digest[n..] == h; None)
  }

  /** `root` is the configured prefix with the layout version; `token` is SHA-256 in hexadecimal. */
  datatype Layout = Layout(root: string, token: string -> string) {
    ghost predicate Valid() {
      forall name :: HexText(token(name))
    }

    /** The names in use have different tokens. */
    ghost predicate Distinguishes(names: set<string>) {
      forall a, b | a in names && b in names && token(a) == token(b) :: a == b
    }

    function ReferencePrefix(resource: string): string {
      root + "/refs/" + token(resource) + "/"
    }

    function ObjectPrefix(resource: string, objectId: string): string {
      ReferencePrefix(resource) + token(objectId) + "/"
    }

    function Family(k: Key): string {
      match k
      case Blob(_, _, _) => "/objects/"
      case Reference(_, _, _) => "/refs/"
      case Latest(_, _) => "/latest/"
      case Schema(_) => "/registry/schemas/"
      case Registration(_) => "/registry/resources/"
      case Orphan(_, _, _) => "/orphans/"
      case Deletion(_, _, _) => "/deletions/"
      case Migration => "/migrations/"
    }

    /** What follows the tokens. */
    function Tail(k: Key): string {
      match k
      case Blob(_, _, hex) => "/sha256/" + hex
      case Reference(_, _, hex) => "/" + hex + ".json"
      case Orphan(_, _, hex) => "/" + hex + ".json"
      case Deletion(_, _, hex) => "/" + hex + ".json"
      case Migration => "00000001.json"
      case _ => ".json"
    }

    function Body(k: Key): string {
      match k
      case Schema(identity) => token(identity) + Tail(k)
      case Registration(r) => token(r) + Tail(k)
      case Migration => Tail(k)
      case _ => token(k.resource) + ("/" + (token(k.objectId) + Tail(k)))
    }

    function Render(k: Key): string {
      root + Family(k) + Body(k)
    }

    /** The eight kinds of keys, written out. */
    lemma RenderedKeys(k: Key)
      ensures Render(k) ==
              match k
              case Blob(r, o, hex) => root + "/objects/" + (token(r) + ("/" + (token(o) + ("/sha256/" + hex))))
              case Reference(r, o, hex) => root + "/refs/" + (token(r) + ("/" + (token(o) + ("/" + hex + ".json"))))
              case Latest(r, o) => root + "/latest/" + (token(r) + ("/" + (token(o) + ".json")))
              case Schema(identity) => root + "/registry/schemas/" + (token(identity) + ".json")
              case Registration(r) => root + "/registry/resources/" + (token(r) + ".json")
              case Orphan(r, o, hex) => root + "/orphans/" + (token(r) + ("/" + (token(o) + ("/" + hex + ".json"))))
              case Deletion(r, o, hex) => root + "/deletions/" + (token(r) + ("/" + (token(o) + ("/" + hex + ".json"))))
              case Migration => root + "/migrations/" + "00000001.json"
    {
    }

    function StartAfter(resource: string, cursor: Option<string>): Result<Option<string>, CursorError> {
      match cursor
      case None => Ok(None)
      case Some(text) =>
        match DecodeCursor(text)
        case Err(error) => Err(error)
        case Ok(suffix) => Ok(Some(ReferencePrefix(resource) + suffix))
    }

    function CursorForKey(resource: string, key: string): string
      requires ReferencePrefix(resource) <= key
    {
      EncodeCursor(key[|ReferencePrefix(resource)|..])
    }

    /** Keys of the resource that a cursor can name. */
    predicate UnderPrefix(resource: string, key: string) {
      var prefix := ReferencePrefix(resource);
      prefix <= key && Cursorable(key[|prefix|..])
    }

    /** Resuming at the cursor of a key resumes right after that key. */
    lemma ResumeAtKey(resource: string, key: string)
      requires UnderPrefix(resource, key)
      ensures StartAfter(resource, Some(CursorForKey(resource, key))) == Ok(Some(key))
    {
      var prefix := ReferencePrefix(resource);
      CursorRoundTrip(key[|prefix|..]);
      assert prefix + key[|prefix|..] == key;
    }

    /** Every reference key of the resource can be resumed at. */
    lemma ReferenceKeysAreCursorable(resource: string, objectId: string, hex: string)
      requires Valid() && HexText(hex)
      ensures UnderPrefix(resource, Render(Reference(resource, objectId, hex)))
    {
      hide Plain, Render;
      var k := Reference(resource, objectId, hex);
      ReferenceShape(k);
      var prefix, suffix := ReferencePrefix(resource), token(objectId) + Tail(k);
      assert (prefix + suffix)[|prefix|..] == suffix;
      assert HexText(token(objectId));
      HexIsPlain(token(objectId));
      HexIsPlain(hex);
      assert Plain("/") && Plain(".json") by { PlainPunctuation(); }
      PlainConcat("/", hex);
      PlainConcat("/" + hex, ".json");
      PlainConcat(token(objectId), Tail(k));
      assert suffix[TOKEN_LENGTH] == '/';
      PlainIsItself(suffix);
    }

    lemma ReferenceShape(k: Key)
      requires k.Reference?
      ensures Render(k) == ReferencePrefix(k.resource) + (token(k.objectId) + Tail(k))
      ensures Render(k) == ObjectPrefix(k.resource, k.objectId) + (k.hex + ".json")
    {
      assert Tail(k) == "/" + (k.hex + ".json");
    }

    /** Among one object's references, keys are listed in the order of the digests. */
    lemma ListedInDigestOrder(resource: string, objectId: string, hex: string, hex': string)
      requires HexText(hex) && HexText(hex')
      ensures Less(Render(Reference(resource, objectId, hex)), Render(Reference(resource, objectId, hex'))) ==
              Less(DIGEST_PREFIX + hex, DIGEST_PREFIX + hex')
    {
      ReferenceShape(Reference(resource, objectId, hex));
      ReferenceShape(Reference(resource, objectId, hex'));
      LessAfterPrefix(ObjectPrefix(resource, objectId), hex + ".json", hex' + ".json");
      LessBeforeSuffix(hex, hex', ".json");
      LessAfterPrefix(DIGEST_PREFIX, hex, hex');
    }

    // ---- distinct keys never meet

    ghost function Names(k: Key): set<string> {
      match k
      case Blob(r, o, _) => {r, o}
      case Reference(r, o, _) => {r, o}
      case Latest(r, o) => {r, o}
      case Schema(identity) => {identity}
      case Registration(r) => {r}
      case Orphan(r, o, _) => {r, o}
      case Deletion(r, o, _) => {r, o}
      case Migration => {}
    }

    ghost predicate WellFormed(k: Key) {
      k.Blob? || k.Reference? || k.Orphan? || k.Deletion? ==> HexText(k.hex)
    }

    /** No two families share a key: their segments part before either ends. */
    lemma FamiliesPart(k: Key, l: Key)
      requires Family(k) != Family(l)
      ensures exists i :: 0 <= i < |Family(k)| && i < |Family(l)| && Family(k)[i] != Family(l)[i]
    {
      var i := if (k.Schema? && l.Registration?) || (k.Registration? && l.Schema?) then 10
               else if Family(k)[1] != Family(l)[1] then 1
               else if Family(k)[2] != Family(l)[2] then 2
               else 3;
      assert Family(k)[i] != Family(l)[i];
    }

    lemma FamilyIsPrefix(k: Key, l: Key)
      ensures root + Family(k) <= Render(l) ==> Family(k) == Family(l)
    {
      if Family(k) != Family(l) {
        FamiliesPart(k, l);
        var i :| 0 <= i < |Family(k)| && i < |Family(l)| && Family(k)[i] != Family(l)[i];
        var body := Body(l);
        assert Render(l) == root + Family(l) + body;
        hide Family, Body, Render;
        PartedIsNoPrefix(root, Family(k), Family(l), body, i);
      }
    }

    lemma PartedIsNoPrefix(front: string, f: string, g: string, body: string, i: nat)
      requires i < |f| && i < |g| && f[i] != g[i]
      ensures !(front + f <= front + g + body)
    {
      assert (front + f)[|front| + i] == f[i] && (front + g + body)[|front| + i] == g[i];
    }

    lemma SameTokens(names: set<string>, a: string, b: string, as': string, bs': string)
      requires Valid() && Distinguishes(names) && a in names && b in names
      requires token(a) + as' == token(b) + bs'
      ensures a == b && as' == bs'
    {
      assert |token(a)| == |token(b)| by { assert HexText(token(a)) && HexText(token(b)); }
      assert (token(a) + as')[..TOKEN_LENGTH] == token(a) && (token(b) + bs')[..TOKEN_LENGTH] == token(b);
      assert (token(a) + as')[TOKEN_LENGTH..] == as' && (token(b) + bs')[TOKEN_LENGTH..] == bs';
    }

    /** Keys are equal only when they stand for the same thing. */
    lemma RenderInjective(names: set<string>, k: Key, l: Key)
      requires Valid() && Distinguishes(names) && Names(k) + Names(l) <= names
      requires WellFormed(k) && WellFormed(l)
      requires Render(k) == Render(l)
      ensures k == l
    {
      FamilyIsPrefix(k, l);
      assert Body(k) == Render(k)[|root + Family(k)|..] && Body(l) == Render(l)[|root + Family(l)|..];
      match k {
        case Schema(identity) => SameTokens(names, identity, l.identity, ".json", ".json");
        case Registration(r) => SameTokens(names, r, l.resource, ".json", ".json");
        case Migration =>
        case _ =>
          var x, x' := token(k.objectId) + Tail(k), token(l.objectId) + Tail(l);
          SameTokens(names, k.resource, l.resource, "/" + x, "/" + x');
          assert ("/" + x)[1..] == x && ("/" + x')[1..] == x';
          SameTokens(names, k.objectId, l.objectId, Tail(k), Tail(l));
          SameTail(k, l);
      }
    }

    lemma SameTail(k: Key, l: Key)
      requires WellFormed(k) && WellFormed(l) && Family(k) == Family(l) && Tail(k) == Tail(l)
      ensures k.Blob? || k.Reference? || k.Orphan? || k.Deletion? ==> k.hex == l.hex
    {
      FamilyNames(k, l);
      if k.Blob? {
        assert k.hex == Tail(k)[8..] && l.hex == Tail(l)[8..];
      } else if k.Reference? || k.Orphan? || k.Deletion? {
        assert k.hex == Tail(k)[1..1 + TOKEN_LENGTH] && l.hex == Tail(l)[1..1 + TOKEN_LENGTH];
      }
    }

    lemma FamilyNames(k: Key, l: Key)
      requires Family(k) == Family(l)
      ensures k.Blob? == l.Blob? && k.Reference? == l.Reference? && k.Latest? == l.Latest? && k.Schema? == l.Schema?
      ensures k.Registration? == l.Registration? && k.Orphan? == l.Orphan? && k.Deletion? == l.Deletion?
    {
      assert |Family(k)| == |Family(l)| && Family(k)[1] == Family(l)[1] && Family(k)[2] == Family(l)[2];
    }

    /** A resource's listing prefix selects exactly that resource's references. */
    lemma ReferencePrefixSelects(names: set<string>, resource: string, k: Key)
      requires Valid() && Distinguishes(names) && {resource} + Names(k) <= names && WellFormed(k)
      ensures ReferencePrefix(resource) <= Render(k) <==> k.Reference? && k.resource == resource
    {
      var prefix := ReferencePrefix(resource);
      if prefix <= Render(k) {
        UnderRefs(resource, k);
        hide Render, Family;
        ReferenceShape(k);
        TokenAfter(root + "/refs/", token(resource), token(k.resource), Render(k));
      }
      if k.Reference? && k.resource == resource {
        ReferenceShape(k);
      }
    }

    lemma UnderRefs(resource: string, k: Key)
      requires ReferencePrefix(resource) <= Render(k)
      ensures k.Reference?
    {
      var probe := Reference(resource, "", "");
      assert root + Family(probe) == root + "/refs/" <= ReferencePrefix(resource);
      FamilyIsPrefix(probe, k);
      FamilyNames(probe, k);
    }

    /** An object's listing prefix selects exactly that object's references. */
    lemma ObjectPrefixSelects(names: set<string>, resource: string, objectId: string, k: Key)
      requires Valid() && Distinguishes(names) && {resource, objectId} + Names(k) <= names && WellFormed(k)
      ensures ObjectPrefix(resource, objectId) <= Render(k) <==>
              k.Reference? && k.resource == resource && k.objectId == objectId
    {
      hide Render, ReferencePrefix;
      var outer, prefix := ReferencePrefix(resource), ObjectPrefix(resource, objectId);
      ReferencePrefixSelects(names, resource, k);
      if prefix <= Render(k) {
        assert outer <= prefix;
        ReferenceShape(k);
        TokenAfter(outer, token(objectId), token(k.objectId), Render(k));
      }
      if k.Reference? && k.resource == resource && k.objectId == objectId {
        ReferenceShape(k);
      }
    }

    lemma TokenAfter(front: string, a: string, b: string, key: string)
      requires |a| == |b| && front + a <= key && front + b <= key
      ensures a == b
    {
      assert key[|front|..|front| + |a|] == a;
      assert key[|front|..|front| + |b|] == b;
    }
  }
}
