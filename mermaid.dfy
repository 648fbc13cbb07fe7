/** The Mermaid diagram auto-fixer: undo the HTML escaping of arrows that
    language models tend to produce, validate, and ask the model for a fix
    at most twice, always returning the best code reached. The diagram
    validator and the model are oracles given as parameters. */
module MermaidSyntaxFixer {
  import opened Text

  datatype Option<T> = None | Some(value: T)

  /** Language-model fix requests made before giving up. */
  const MaxFixAttempts: nat := 2

  const EscapedArrow: string := "--&gt;"
  const Arrow: string := "-->"

  /** `pattern` occurs somewhere in `s`. */
  predicate Contains(s: string, pattern: string)
    decreases |s|
  {
    pattern <= s || (s != [] && Contains(s[1..], pattern))
  }

  /** `applyDeterministicFixes`: `code.replace(/--&gt;/g, "-->")`, scanning
      left to right and replacing each occurrence found. */
  function ApplyDeterministicFixes(code: string): (fixed: string)
    ensures |fixed| <= |code|
    decreases |code|
  {
    if EscapedArrow <= code then Arrow + ApplyDeterministicFixes(code[|EscapedArrow|..])
    else if code == [] then []
    else [code[0]] + ApplyDeterministicFixes(code[1..])
  }

  // ---------------------------------------------------------------------
  // Properties of the deterministic fix

  /** Code without an escaped arrow is left as it is. */
  lemma {:induction false} FixLeavesCleanCodeUnchanged(code: string)
    requires !Contains(code, EscapedArrow)
    ensures ApplyDeterministicFixes(code) == code
    decreases |code|
  {
    if code != [] {
      FixLeavesCleanCodeUnchanged(code[1..]);
      assert code == [code[0]] + code[1..];
    }
  }

  /** Every escaped arrow becomes an arrow, whatever surrounds it: the
      pattern has no proper prefix that is also a suffix, so no match can
      start inside `before` and run into the escaped arrow. */
  lemma {:induction false} FixReplacesEveryOccurrence(before: string, after: string)
    ensures ApplyDeterministicFixes(before + EscapedArrow + after)
            == ApplyDeterministicFixes(before) + Arrow + ApplyDeterministicFixes(after)
    decreases |before|
  {
    var s := before + EscapedArrow + after;
    if before == [] {
      assert s[|EscapedArrow|..] == after;
    } else if EscapedArrow <= s {
      // a match at the start of `s` lies wholly inside `before`
      var k := |before|;
      assert s[k] == '-' && s[k + 1] == '-' && s[k + 2] == '&';
      assert k >= |EscapedArrow|;
      assert EscapedArrow <= before;
      assert s[|EscapedArrow|..] == before[|EscapedArrow|..] + EscapedArrow + after;
      FixReplacesEveryOccurrence(before[|EscapedArrow|..], after);
    } else {
      assert !(EscapedArrow <= before);
      assert s[1..] == before[1..] + EscapedArrow + after;
      FixReplacesEveryOccurrence(before[1..], after);
    }
  }

  /** If the fixed code starts with text free of hyphens, the code did too:
      hyphen-free output can only come from copied characters. */
  lemma {:induction false} HyphenFreePrefixIsCopied(prefix: string, code: string)
    requires '-' !in prefix
    requires prefix <= ApplyDeterministicFixes(code)
    ensures prefix <= code
    decreases |prefix|
  {
    if prefix != [] {
      var fixed := ApplyDeterministicFixes(code);
      assert fixed[0] == prefix[0];
      if EscapedArrow <= code {
        assert false;
      }
      assert code != [];
      HyphenFreePrefixIsCopied(prefix[1..], code[1..]);
    }
  }

  /** No escaped arrow survives the fix, not even one formed from the
      pieces around a replacement. */
  lemma {:induction false} FixRemovesEveryEscapedArrow(code: string)
    ensures !Contains(ApplyDeterministicFixes(code), EscapedArrow)
    decreases |code|
  {
    var fixed := ApplyDeterministicFixes(code);
    if EscapedArrow <= code {
      var rest := ApplyDeterministicFixes(code[|EscapedArrow|..]);
      FixRemovesEveryEscapedArrow(code[|EscapedArrow|..]);
      assert fixed == Arrow + rest;
      assert fixed[1..] == "->" + rest;
      assert fixed[2..] == ">" + rest;
      assert fixed[3..] == rest;
      assert !Contains(fixed[2..], EscapedArrow);
      assert !Contains(fixed[1..], EscapedArrow);
    } else if code != [] {
      var rest := ApplyDeterministicFixes(code[1..]);
      FixRemovesEveryEscapedArrow(code[1..]);
      assert fixed == [code[0]] + rest;
      assert fixed[1..] == rest;
      assert EscapedArrow <= code[1..] ==> rest[..2] == "--";
      if EscapedArrow <= fixed {
        // the match would have to continue into copied characters of `code`
        assert fixed[..|EscapedArrow|] == EscapedArrow;
        assert fixed[0] == fixed[..|EscapedArrow|][0] == EscapedArrow[0] == '-';
        assert code[0] == '-';
        assert rest[..5] == "-&gt;";
        assert rest[..2] == "-&";
        assert !(EscapedArrow <= code[1..]);
        assert code[1..] != [];
        var tail := ApplyDeterministicFixes(code[2..]);
        assert rest == [code[1]] + tail;
        assert tail[..4] == rest[1..5];
        assert "&gt;" <= tail;
        HyphenFreePrefixIsCopied("&gt;", code[2..]);
        assert false;
      }
    }
  }

  /** Fixing twice is fixing once. */
  lemma FixIsIdempotent(code: string)
    ensures ApplyDeterministicFixes(ApplyDeterministicFixes(code)) == ApplyDeterministicFixes(code)
  {
    FixRemovesEveryEscapedArrow(code);
    FixLeavesCleanCodeUnchanged(ApplyDeterministicFixes(code));
  }

  // ---------------------------------------------------------------------
  // The retry loop

  /** What the diagram validator says of a piece of code. */
  datatype Validation = Valid | Invalid(message: string)

  /** What one fix request to the model ends in: a reply carrying code (the
      empty string, like a missing reply, counts as no fix), a reply with no
      code at all, or a thrown value, which is an `Error` with a message or
      something else. */
  datatype LlmReply = Fixed(code: string) | NoFix | Threw(message: Option<string>)

  /** `MermaidFixResult`. `fixedCode` and `attempts` are always set; `error`
      only on failure. */
  datatype FixResult = FixResult(success: bool, fixedCode: string, error: Option<string>, attempts: nat)

  /** The error passed to the model and kept for the final message. */
  function LastError(validation: Validation): (error: string)
    ensures error != ""
    ensures validation.Invalid? && validation.message != "" ==> error == validation.message
    ensures !(validation.Invalid? && validation.message != "") ==> error == "Unknown syntax error"
  {
    if validation.Invalid? && validation.message != "" then validation.message
    else "Unknown syntax error"
  }

  /** A reply that gives the loop new code to try. */
  predicate Usable(reply: LlmReply)
  {
    reply.Fixed? && reply.code != ""
  }

  /** The error of a request that did not give new code. */
  function RequestError(reply: LlmReply): (error: string)
    ensures error == "" ==> reply == Threw(Some(""))
    ensures reply.Threw? && reply.message.Some? ==> error == reply.message.value
  {
    match reply
    case Threw(Some(message)) => message
    case Threw(None) => "Fix request failed"
    case _ => "LLM failed to provide a fix"
  }

  /** The message after the last allowed request, ending in the error
      of the code it gave up on. */
  function ExhaustedError(lastError: string): (error: string)
    ensures |error| > |lastError|
    ensures error[|error| - |lastError|..] == lastError
  {
    "Failed to fix syntax after " + NatToString(MaxFixAttempts) + " attempts. Last error: " + lastError
  }

  /** Step `i` of a run: the `i`-th validated code failed, the `i`-th fix
      request (numbered from 0) sent it with its error and got usable code
      back, and that code, fixed, is the next one validated. */
  ghost predicate RetriedAt(validate: string -> Validation, llm: (nat, string, string) -> LlmReply,
                            validated: seq<string>, i: nat)
    requires i + 1 < |validated|
  {
    var reply := llm(i, validated[i], LastError(validate(validated[i])));
    && validate(validated[i]).Invalid?
    && Usable(reply)
    && validated[i + 1] == ApplyDeterministicFixes(reply.code)
  }

  /** `validated` is the sequence of codes one run validates: the fixed
      input first, then the fixed reply to each request in turn. */
  ghost predicate IsRun(code: string, validate: string -> Validation,
                        llm: (nat, string, string) -> LlmReply, validated: seq<string>)
  {
    && |validated| >= 1
    && validated[0] == ApplyDeterministicFixes(code)
    && forall i: nat :: i + 1 < |validated| ==> RetriedAt(validate, llm, validated, i)
  }

  /** `autoFixSyntax`. `validate` stands for the Mermaid parser and `llm(i,
      code, error)` for the reply to the `i`-th fix request sent with that
      code and error; `validated` records the codes validated. */
  method AutoFixSyntax(code: string, validate: string -> Validation,
                       llm: (nat, string, string) -> LlmReply)
    returns (result: FixResult, ghost validated: seq<string>)
    ensures IsRun(code, validate, llm, validated)
    ensures |validated| <= MaxFixAttempts + 1
    ensures result.fixedCode == validated[|validated| - 1]
    ensures !Contains(result.fixedCode, EscapedArrow)
    ensures validate(ApplyDeterministicFixes(code)).Valid? ==>
              result == FixResult(true, ApplyDeterministicFixes(code), None, 0)
    ensures result.success <==> validate(result.fixedCode).Valid?
    ensures result.success ==> result.error == None && result.attempts == |validated| - 1
    ensures !result.success && |validated| == MaxFixAttempts + 1 ==>
              && result.attempts == MaxFixAttempts
              && result.error == Some(ExhaustedError(LastError(validate(result.fixedCode))))
    ensures !result.success && |validated| <= MaxFixAttempts ==>
              var reply := llm(|validated| - 1, result.fixedCode, LastError(validate(result.fixedCode)));
              && result.attempts == |validated|
              && !Usable(reply)
              && result.error == Some(RequestError(reply))
  {
    var currentCode := code;
    var llmAttempts: nat := 0;
    var finalError: Option<string> := None;
    validated := [];
    while true
      invariant llmAttempts <= MaxFixAttempts
      invariant |validated| == llmAttempts
      invariant validated == [] ==> currentCode == code
      invariant IsRun(code, validate, llm, validated + [ApplyDeterministicFixes(currentCode)])
      decreases MaxFixAttempts - llmAttempts
    {
      FixRemovesEveryEscapedArrow(currentCode);
      currentCode := ApplyDeterministicFixes(currentCode);
      validated := validated + [currentCode];

      var validation := validate(currentCode);
      if validation.Valid? {
        assert llmAttempts > 0 ==> RetriedAt(validate, llm, validated, 0);
        return FixResult(true, currentCode, None, llmAttempts), validated;
      }
      var lastError := LastError(validation);

      if llmAttempts >= MaxFixAttempts {
        finalError := Some(ExhaustedError(lastError));
        break;
      }

      llmAttempts := llmAttempts + 1;
      var reply := llm(llmAttempts - 1, currentCode, lastError);
      if !Usable(reply) {
        finalError := Some(RequestError(reply));
        break;
      }
      ExtendRun(code, validate, llm, validated, ApplyDeterministicFixes(reply.code));
      currentCode := reply.code;
    }
    // the fixed input itself failed validation, so this is no first-try success
    assert validate(validated[0]).Invalid? by {
      if |validated| > 1 {
        assert RetriedAt(validate, llm, validated, 0);
      }
    }
    result := FixResult(false, currentCode, finalError, llmAttempts);
  }

  /** A run extends by one step when its last code fails and the next
      request gives usable code. */
  lemma ExtendRun(code: string, validate: string -> Validation,
                  llm: (nat, string, string) -> LlmReply, validated: seq<string>, next: string)
    requires IsRun(code, validate, llm, validated)
    requires RetriedAt(validate, llm, validated + [next], |validated| - 1)
    ensures IsRun(code, validate, llm, validated + [next])
  {
    var longer := validated + [next];
    forall i: nat | i + 1 < |longer|
      ensures RetriedAt(validate, llm, longer, i)
    {
      if i + 1 < |validated| {
        assert RetriedAt(validate, llm, validated, i);
      }
    }
  }
}
