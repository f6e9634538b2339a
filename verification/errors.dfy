/** The error kinds of errors.go and the text each one renders. */
module Errors {
  import opened Graph

  datatype DagError =
    | VertexNilError
    | VertexDuplicateError(v: Vertex)
    | VertexUnknownError(v: Vertex)
    | EdgeDuplicateError(src: Vertex, dst: Vertex)
    | EdgeUnknownError(src: Vertex, dst: Vertex)
    | EdgeLoopError(src: Vertex, dst: Vertex)
  {
    /**
      The text `Error()` returns; `str` plays the part of each vertex's
      `String()` method. Its first character, last character and
      seventh-from-last character tell the kinds apart.
    */
    function Message(str: Vertex -> string): (m: string)
      ensures |m| >= 12
      ensures m[0] == 'd' <==> VertexNilError?
      ensures m[0] == '\'' <==> VertexDuplicateError? || VertexUnknownError?
      ensures m[|m| - 1] == 'p' <==> EdgeLoopError?
      ensures m[|m| - 7] == 'y' <==> VertexDuplicateError? || EdgeDuplicateError?
      ensures m[|m| - 7] == 'u' <==> VertexUnknownError? || EdgeUnknownError?
    {
      match this
      case VertexNilError => "don't know what to do with 'nil'"
      case VertexDuplicateError(v) => "'" + str(v) + "' is already known"
      case VertexUnknownError(v) => "'" + str(v) + "' is unknown"
      case EdgeDuplicateError(src, dst) => EdgeText(str, src, dst) + " is already known"
      case EdgeUnknownError(src, dst) => EdgeText(str, src, dst) + " is unknown"
      case EdgeLoopError(src, dst) => EdgeText(str, src, dst) + " would create a loop"
    }

    /** The two kinds of error agree: same constructor. */
    predicate SameKind(other: DagError) {
      && (VertexNilError? <==> other.VertexNilError?)
      && (VertexDuplicateError? <==> other.VertexDuplicateError?)
      && (VertexUnknownError? <==> other.VertexUnknownError?)
      && (EdgeDuplicateError? <==> other.EdgeDuplicateError?)
      && (EdgeUnknownError? <==> other.EdgeUnknownError?)
      && (EdgeLoopError? <==> other.EdgeLoopError?)
    }
  }

  function EdgeText(str: Vertex -> string, src: Vertex, dst: Vertex): string {
    "edge between '" + str(src) + "' and '" + str(dst) + "'"
  }

  /**
    The message tells the error kinds apart, and for a one-vertex error it
    carries that vertex's text between the quotes.
  */
  lemma MessageDeterminesKind(e1: DagError, e2: DagError, str: Vertex -> string)
    requires e1.Message(str) == e2.Message(str)
    ensures e1.SameKind(e2)
    ensures e1.VertexDuplicateError? ==> str(e1.v) == str(e2.v)
    ensures e1.VertexUnknownError? ==> str(e1.v) == str(e2.v)
  {
    var m := e1.Message(str);
    if e1.VertexDuplicateError? && e2.VertexDuplicateError? {
      assert str(e1.v) == m[1..|m| - 18];
      assert str(e2.v) == m[1..|m| - 18];
    }
    if e1.VertexUnknownError? && e2.VertexUnknownError? {
      assert str(e1.v) == m[1..|m| - 12];
      assert str(e2.v) == m[1..|m| - 12];
    }
  }

  /** The expected texts of errors_test.go for the one-vertex errors, the vertex rendered as "1". */
  lemma VertexMessageExamples(v1: Vertex, str: Vertex -> string)
    requires str(v1) == "1"
    ensures VertexNilError.Message(str) == "don't know what to do with 'nil'"
    ensures VertexDuplicateError(v1).Message(str) == "'1' is already known"
    ensures VertexUnknownError(v1).Message(str) == "'1' is unknown"
  {
    var quoted := "'" + str(v1);
    assert quoted == "'1";
    assert quoted + "' is already known" == "'1' is already known";
    assert quoted + "' is unknown" == "'1' is unknown";
  }

  /** The expected texts of errors_test.go for the edge errors, the vertices rendered as "1" and "2". */
  lemma EdgeMessageExamples(v1: Vertex, v2: Vertex, str: Vertex -> string)
    requires str(v1) == "1" && str(v2) == "2"
    ensures EdgeDuplicateError(v1, v2).Message(str) == "edge between '1' and '2' is already known"
    ensures EdgeUnknownError(v1, v2).Message(str) == "edge between '1' and '2' is unknown"
    ensures EdgeLoopError(v1, v2).Message(str) == "edge between '1' and '2' would create a loop"
  {
    var edge := EdgeText(str, v1, v2);
    EdgeTextExample(v1, v2, str);
    assert edge + " is already known" == "edge between '1' and '2' is already known";
    assert edge + " is unknown" == "edge between '1' and '2' is unknown";
    assert edge + " would create a loop" == "edge between '1' and '2' would create a loop";
  }

  lemma EdgeTextExample(v1: Vertex, v2: Vertex, str: Vertex -> string)
    requires str(v1) == "1" && str(v2) == "2"
    ensures EdgeText(str, v1, v2) == "edge between '1' and '2'"
  {
  }
}
