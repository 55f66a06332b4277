/** What the expression evaluator does with one input line (the body of the
    read loop of main.c `main`): reject it, or show its postfix form and its
    value. Reading the file and formatting the output are not modelled. */
module LineProcessing {
  import opened Common
  import opened Tokens
  import opened Normalizer
  import opened Lexer
  import opened Postfix
  import opened PostfixFacts
  import opened Evaluator

  /** `Invalid Expression` on a line of its own, or a `Postfix:` line
      followed by a `Result:` line (`None` printing `Invalid Expression`). */
  datatype Outcome = InvalidExpression | Shown(postfix: seq<string>, result: Option<real>)

  function Run(line: string, pow: (real, real) -> real): Outcome {
    if IsInvalidLine(line) then InvalidExpression
    else match Tokenize(Normalize(line))
      case None => InvalidExpression
      case Some(ts) =>
        if |ts| < 1 then InvalidExpression
        else match Convert(ts)
          case None => InvalidExpression
          case Some(ps) => if |ps| < 1 then InvalidExpression else Shown(ps, Evaluate(ps, pow))
  }

  /** One pass of the read loop, from the validity check to the result. */
  method ProcessLine(line: string, pow: (real, real) -> real) returns (o: Outcome)
    ensures o == Run(line, pow)
  {
    if IsInvalidLine(line) {
      return InvalidExpression;
    }
    var text := PreprocessLine(line);
    var tokenCount, tokens := TokenizeLine(text);
    if tokenCount < 1 {
      return InvalidExpression;
    }
    var postfixCount, postfix := ToPostfix(tokens);
    if postfixCount < 1 {
      return InvalidExpression;
    }
    var ok, result := EvaluatePostfix(postfix, pow);
    o := Shown(postfix, if ok == 1 then Some(result) else None);
  }

  /** A shown postfix form is made of numbers and operators only, holds the
      numbers of the normalised line in order, and has a value exactly when
      it is well shaped and no division by zero occurs on the way. */
  lemma ShownIsPostfix(line: string, pow: (real, real) -> real)
    requires Run(line, pow).Shown?
    ensures var ps := Run(line, pow).postfix;
            |ps| >= 1 && OutputOk(ps) &&
            Numbers(ps) == Numbers(Tokenize(Normalize(line)).value) &&
            (Run(line, pow).result.Some? ==> Shape(ps, 0)) &&
            ("/" !in ps && Shape(ps, 0) ==> Run(line, pow).result.Some?)
  {
    var ts := Tokenize(Normalize(line)).value;
    ConvertOutput(ts);
    EvaluateShape(Run(line, pow).postfix, pow);
  }

  /** A line is shown exactly when it is not rejected outright, it lexes into
      at least one token, its tokens are all recognised with balanced
      parentheses, and the postfix form is not empty. */
  lemma ShownExactly(line: string, pow: (real, real) -> real)
    ensures Run(line, pow).Shown? <==>
              !IsInvalidLine(line) && Tokenize(Normalize(line)).Some? &&
              var ts := Tokenize(Normalize(line)).value;
              |ts| >= 1 && (forall k :: 0 <= k < |ts| ==> Recognised(ts[k])) && Balanced(ts, 0) &&
              match Convert(ts)
              case Some(ps) => |ps| >= 1
              case None => false
  {
    if !IsInvalidLine(line) && Tokenize(Normalize(line)).Some? {
      ConvertSucceeds(Tokenize(Normalize(line)).value);
    }
  }
}
