/**
  The `script` function: its second argument must be object- or map-shaped;
  an argument that is not yet wholly known defers the result; otherwise the
  variables are validated, rendered as declarations and spliced into the
  script.
 */
module ScriptFunction {
  import opened Wrappers
  import opened Values
  import opened VariableNames
  import opened Ordering
  import opened Encoder
  import opened Validation
  import opened Insertion
  import opened GoFormat

  /** The type of the variables argument, as far as the shape check cares. */
  datatype Shape = ObjectShape | MapShape | OtherShape

  /** Whether the variables argument is wholly known, and if so its attributes. */
  datatype Variables = PartlyUnknown | Known(vars: map<string, Value>)

  datatype Arg = Arg(shape: Shape, content: Variables)

  /**
    What a call gives back: the script text, an unknown result with no
    error, or an error about one of the arguments (its position and message).
   */
  datatype Outcome = Text(text: string) | Deferred | ArgError(index: nat, message: string)

  /** The index of the variables argument, which every error of the function is about. */
  const VariablesArg: nat := 1

  /** What the call gives back, step by step as the source decides it. */
  ghost function ScriptResult(source: string, arg: Arg): Outcome
  {
    if arg.shape == OtherShape then ArgError(VariablesArg, Message(NotAnObject))
    else if arg.content.PartlyUnknown? then Deferred
    else
      var vars := arg.content.vars;
      match VarsError(vars)
      case Some(e) => ArgError(VariablesArg, Message(e))
      case None =>
        ValidatedEncodable(vars);
        Text(InsertDecls(source, Declarations(vars)))
  }

  /** The `Impl` closure of the `script` function. */
  method Script(source: string, arg: Arg) returns (out: Outcome)
    ensures out == ScriptResult(source, arg)
  {
    if !(arg.shape == ObjectShape || arg.shape == MapShape) {
      return ArgError(VariablesArg, Message(NotAnObject));
    }
    if arg.content.PartlyUnknown? {
      return Deferred;
    }
    var varVals := arg.content.vars;
    var err := Validate(varVals);
    if err.Some? {
      return ArgError(VariablesArg, Message(err.value));
    }
    ValidatedEncodable(varVals);
    var varDecls := VariablesToBashDecls(varVals);
    return Text(InsertDecls(source, varDecls));
  }

  /** The shape is checked before anything else: not even an unknown argument escapes it. */
  lemma ShapeCheckedFirst(source: string, arg: Arg)
    requires arg.shape == OtherShape
    ensures ScriptResult(source, arg) == ArgError(VariablesArg, NotAnObjectText)
  {
  }

  /** A well-shaped argument that is not wholly known gives an unknown result and no error. */
  lemma UnknownDefers(source: string, shape: Shape)
    requires shape != OtherShape
    ensures ScriptResult(source, Arg(shape, PartlyUnknown)) == Deferred
  {
  }

  /**
    The outcome uses the intended message. The message the source produces,
    formatted a second time, is the same for every error except an invalid
    name.
   */
  lemma AsWrittenAgrees(source: string, arg: Arg)
    requires arg.shape == OtherShape
          || (arg.content.Known? && VarsError(arg.content.vars).Some? && !VarsError(arg.content.vars).value.InvalidName?)
    ensures var e := if arg.shape == OtherShape then NotAnObject else VarsError(arg.content.vars).value;
      BareVerbs(Message(e)) && ScriptResult(source, arg) == ArgError(VariablesArg, ArgErrorAsWritten(e))
  {
    if arg.shape == OtherShape {
      AsWrittenWithoutPercent(NotAnObject);
    } else {
      OnlyInvalidNameAltered(arg.content.vars);
    }
  }

  /** A call succeeds exactly when the argument is well shaped, known, and every variable fits Bash. */
  lemma SucceedsIff(source: string, arg: Arg)
    ensures ScriptResult(source, arg).Text?
        <==> arg.shape != OtherShape && arg.content.Known?
             && forall n :: n in arg.content.vars ==> IsIdentifier(n) && Representable(arg.content.vars[n])
  {
    if arg.shape != OtherShape && arg.content.Known? {
      ValidIff(arg.content.vars);
    }
  }

  /**
    A failing call reports, for argument 1, the problem of the smallest name
    that has one: its name if that is bad, else its value. No text comes back.
   */
  lemma FailureNamesLeastInvalid(source: string, shape: Shape, vars: map<string, Value>)
    requires shape != OtherShape
    requires exists n :: n in vars && !(IsIdentifier(n) && Representable(vars[n]))
    ensures exists n :: (n in vars && EntryError(n, vars[n]).Some?
        && ScriptResult(source, Arg(shape, Known(vars))) == ArgError(VariablesArg, Message(EntryError(n, vars[n]).value))
        && forall m :: m in vars && Less(m, n) ==> IsIdentifier(m) && Representable(vars[m]))
  {
    ValidIff(vars);
    ErrorOfLeastInvalid(vars);
  }

  /** On success the text is the script with the declarations of all variables, in ascending order of names, spliced in. */
  lemma SuccessText(source: string, shape: Shape, vars: map<string, Value>)
    requires shape != OtherShape
    requires forall n :: n in vars ==> IsIdentifier(n) && Representable(vars[n])
    ensures AllEncodable(vars)
    ensures ScriptResult(source, Arg(shape, Known(vars))) == Text(InsertDecls(source, Declarations(vars)))
  {
    ValidIff(vars);
    ValidatedEncodable(vars);
  }

  /** A single variable that fits Bash, in a script without an interpreter line: its declaration goes in front. */
  lemma SingleVariable(source: string, shape: Shape, name: string, v: Value)
    requires shape != OtherShape && !HasPrefix(source, "#!")
    requires IsIdentifier(name) && Representable(v)
    ensures Encodable(v)
    ensures ScriptResult(source, Arg(shape, Known(map[name := v]))) == Text(Declaration(name, v) + source)
  {
    VarsErrorSingle(name, v);
    DeclarationsSingle(name, v);
  }

  /** A single variable with a problem: the call fails with that problem. */
  lemma SingleInvalid(source: string, shape: Shape, name: string, v: Value)
    requires shape != OtherShape && EntryError(name, v).Some?
    ensures ScriptResult(source, Arg(shape, Known(map[name := v]))) == ArgError(VariablesArg, Message(EntryError(name, v).value))
  {
    VarsErrorSingle(name, v);
  }

  /** With no variables the script comes back unchanged, except that a lone interpreter line gets a newline. */
  lemma NoVariables(source: string, shape: Shape)
    requires shape != OtherShape
    ensures ScriptResult(source, Arg(shape, Known(map[])))
         == Text(if HasPrefix(source, "#!") && '\n' !in source then source + "\n" else source)
  {
    var none: map<string, Value> := map[];
    ValidIff(none);
    DeclarationsEmpty();
    EmptyDecls(source);
  }

}
