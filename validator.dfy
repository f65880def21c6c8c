/**
 * The storage options and their validator. A string option that holds no
 * character other than white space counts as missing, as does a null one;
 * white space is what .NET's `char.IsWhiteSpace` accepts.
 */
module OptionsValidation {
  import opened Base

  /** The options bound from the configuration section. */
  datatype StorageOptions = StorageOptions(
    connectionString: Option<string>,
    schema: Option<string>,
    configureDatabase: bool,
    commandTimeout: Int32,
    primitiveEventSequencerBatchSize: Int32)

  const SectionName: string := "Shuttle:EventStore:SqlServer:Storage"

  /** A freshly constructed options object. */
  const DefaultOptions := StorageOptions(Some(""), Some("dbo"), true, 30, 100)

  /** The Unicode space, line and paragraph separators, and the controls U+0009 to U+000D and U+0085. */
  predicate IsWhiteSpace(c: char) {
    || ('\U{9}' <= c <= '\U{D}') || c == '\U{20}' || c == '\U{85}' || c == '\U{A0}' || c == '\U{1680}'
    || ('\U{2000}' <= c <= '\U{200A}') || c == '\U{2028}' || c == '\U{2029}'
    || c == '\U{202F}' || c == '\U{205F}' || c == '\U{3000}'
  }

  /** `string.IsNullOrWhiteSpace` on a present string: the scan stops at the first other character. */
  predicate AllWhiteSpace(s: string)
    decreases |s|
  {
    s == [] || (IsWhiteSpace(s[0]) && AllWhiteSpace(s[1..]))
  }

  predicate IsNullOrWhiteSpace(s: Option<string>) {
    s.None? || AllWhiteSpace(s.value)
  }

  /** The scan accepts exactly the strings whose every character is white space. */
  lemma {:induction false} AllWhiteSpaceSpec(s: string)
    ensures AllWhiteSpace(s) <==> forall k :: 0 <= k < |s| ==> IsWhiteSpace(s[k])
    decreases |s|
  {
    if s != [] {
      AllWhiteSpaceSpec(s[1..]);
      assert forall k :: 1 <= k < |s| ==> s[k] == s[1..][k - 1];
    }
  }

  /** A string option with content: present, with some character that is not white space. */
  ghost predicate HasContent(s: Option<string>) {
    s.Some? && exists k :: 0 <= k < |s.value| && !IsWhiteSpace(s.value[k])
  }

  lemma NullOrWhiteSpaceIsNoContent(s: Option<string>)
    ensures IsNullOrWhiteSpace(s) <==> !HasContent(s)
  {
    if s.Some? {
      AllWhiteSpaceSpec(s.value);
    }
  }

  /** The two resource messages of a failed validation. */
  datatype Failure = ConnectionStringOption | SchemaOption

  /** `ValidateOptionsResult`. */
  datatype ValidateResult = Success | Fail(failure: Failure)

  /**
   * Validate(name, options): the guard rejects null options; the connection
   * string is checked before the schema. The name is not used.
   */
  function Validate(name: Option<string>, options: Option<StorageOptions>): (r: Result<ValidateResult>)
    ensures r.Err? <==> options.None?
    ensures r.Err? ==> r.error == ArgumentNull
  {
    if options.None? then Err(ArgumentNull)
    else if IsNullOrWhiteSpace(options.value.connectionString) then Ok(Fail(ConnectionStringOption))
    else if IsNullOrWhiteSpace(options.value.schema) then Ok(Fail(SchemaOption))
    else Ok(Success)
  }

  /**
   * Validation succeeds exactly when both strings have content; a connection
   * string without content is reported whatever the schema, and a schema
   * without content only when the connection string has some.
   */
  lemma ValidateSpec(name: Option<string>, options: Option<StorageOptions>)
    ensures var r := Validate(name, options);
      && (r == Ok(Success) <==>
            options.Some? && HasContent(options.value.connectionString) && HasContent(options.value.schema))
      && (r == Ok(Fail(ConnectionStringOption)) <==>
            options.Some? && !HasContent(options.value.connectionString))
      && (r == Ok(Fail(SchemaOption)) <==>
            options.Some? && HasContent(options.value.connectionString) && !HasContent(options.value.schema))
  {
    if options.Some? {
      NullOrWhiteSpaceIsNoContent(options.value.connectionString);
      NullOrWhiteSpaceIsNoContent(options.value.schema);
    }
  }

  /** The default options fail on their empty connection string. */
  lemma DefaultOptionsFail(name: Option<string>)
    ensures Validate(name, Some(DefaultOptions)) == Ok(Fail(ConnectionStringOption))
  {
  }

  /** With the default schema, setting a connection string decides validation on its own. */
  lemma DefaultSchemaSuffices(name: Option<string>, connectionString: string)
    ensures Validate(name, Some(DefaultOptions.(connectionString := Some(connectionString)))) == Ok(Success)
      <==> exists k :: 0 <= k < |connectionString| && !IsWhiteSpace(connectionString[k])
  {
    var schema := DefaultOptions.schema.value;
    assert schema[0] == 'd' && !IsWhiteSpace(schema[0]);
    ValidateSpec(name, Some(DefaultOptions.(connectionString := Some(connectionString))));
  }
}
