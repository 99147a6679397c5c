/**
 * The ontology document the page reads at start-up: concepts (a label and
 * the cluster it belongs to) and typed relations between labels.
 */
module Ontology {
  import opened Text

  /** `name` is the JSON key "label" (a reserved word in Dafny). */
  datatype Concept = Concept(name: string, cluster: string)
  datatype Relation = Relation(source: string, target: string, kind: string)
  datatype Ontology = Ontology(concepts: seq<Concept>, relations: seq<Relation>)

  /** How reading the file ended; the file system and the JSON parser are
      outside the model, so their outcome is an input. */
  datatype LoadOutcome =
    | Parsed(data: Ontology)
    | FileNotFound
    | InvalidJson(message: string)

  /** The data the rest of the page works with: the parsed document, or no
      concepts and no relations when the file is missing or malformed. */
  function OntologyFrom(outcome: LoadOutcome): (o: Ontology)
    ensures outcome.Parsed? ==> o == outcome.data
    ensures !outcome.Parsed? ==> o.concepts == [] && o.relations == []
  {
    match outcome
    case Parsed(data) => data
    case FileNotFound => Ontology([], [])
    case InvalidJson(_) => Ontology([], [])
  }

  const NotFoundText: string :=
    "Ontology file (ontology_sample.json) not found. Please ensure it exists in the project directory."
  const InvalidPrefix: string := "Invalid JSON in ontology_sample.json: "
  const InvalidSuffix: string := ". Please check the file for syntax errors (e.g., missing commas)."

  /** The error shown to the user, if any; a malformed file's error carries
      the parser's own message. */
  function LoadError(outcome: LoadOutcome): (error: string)
    ensures outcome.Parsed? <==> error == []
    ensures outcome.InvalidJson? ==> Contains(error, outcome.message)
  {
    match outcome
    case Parsed(_) => []
    case FileNotFound => NotFoundText
    case InvalidJson(message) =>
      var text := InvalidPrefix + message + InvalidSuffix;
      assert text[|InvalidPrefix|..|InvalidPrefix| + |message|] == message;
      assert OccursAt(text, message, |InvalidPrefix|);
      ContainsIffOccurs(text, message);
      text
  }
}
