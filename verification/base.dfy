/** Failure-carrying results shared by the tokenizer, the tree builder and the
    evaluator. The source reports failures by throwing; here they are values. */
module Base {

  datatype Option<T> = None | Some(value: T)

  /** The three kinds of failure the evaluator raises:
      `ArgumentNull` for a null argument (ArgumentNullException),
      `SyntaxError` for a malformed expression, located at a character offset
      (ExpressionSyntaxErrorException), and `EvaluatorError` for any other
      failure (PolicyEvaluatorException). */
  datatype Error =
    | ArgumentNull(paramName: string)
    | SyntaxError(position: int, message: string)
    | EvaluatorError(message: string)

  datatype Result<T> = Ok(value: T) | Err(error: Error)
}
