/** The records the formatting layer consumes (models.py), as plain immutable
    datatypes. Pydantic validation and the FastAPI form glue are not modelled. */
module Models {

  /** Python's `Optional[...]`. */
  datatype Option<T> = None | Some(value: T)

  /** A worked example of the problem: raw input and output text. */
  datatype Example = Example(input: string, output: string)

  /** The metadata extracted from a problem statement. The problem number is
      optional and never negative. */
  datatype ProblemDetails = ProblemDetails(
    problemNumber: Option<nat>,
    problemName: string,
    difficulty: string,
    tags: seq<string>,
    originalStatement: string,
    inputDescription: string,
    outputDescription: string,
    examples: seq<Example>
  )

  /** The write-up generated for a solution. */
  datatype Explanation = Explanation(
    explanation: string,
    keyInsights: seq<string>,
    hints: seq<string>,
    algorithm: string,
    approach: seq<string>,
    walkthrough: string,
    timeComplexity: string,
    spaceComplexity: string,
    edgeCases: seq<string>
  )

  /** Python truthiness of an optional integer: present and non-zero. */
  predicate Truthy(n: Option<nat>) {
    n.Some? && n.value != 0
  }
}
