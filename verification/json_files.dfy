/**
 * `Serializable.to_file` / `from_file`. A file holds one JSON document; writing
 * with `json.dump` and reading with `json.load` is taken to give back the same
 * value, so a file is modelled by the document it holds.
 */
module JsonFiles {
  import opened Wrappers
  import opened Exceptions
  import opened JsonValue
  import Commands
  import Definitions

  /** `to_file`: the document written is `serialize(self)`. */
  function ToFile<T>(obj: T, serialize: T -> Json): Json {
    serialize(obj)
  }

  /** `from_file`: `deserialize` applied to the parsed document, and nothing else. */
  function FromFile<T>(doc: Json, deserialize: Json -> Result<T, Raised>): Result<T, Raised> {
    deserialize(doc)
  }

  /** A `Command` written to a file reads back field-equal. */
  lemma CommandFileRoundTrip(c: Commands.Command)
    ensures FromFile(ToFile(c, Commands.Serialize), Commands.Deserialize) == Ok(c)
  {
    Commands.RoundTrip(c);
  }

  /** A `StatMatchInfo` written to a file reads back field-equal. */
  lemma StatFileRoundTrip(s: Definitions.StatMatchInfo)
    ensures FromFile(ToFile(s, Definitions.SerializeStat), Definitions.DeserializeStat) == Ok(s)
  {
    Definitions.StatRoundTrip(s);
  }
}
