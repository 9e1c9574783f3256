// Job validation (agent/src/model.rs) and the FFmpeg argument vector built from a valid job.
module JobModel {
  import opened Basics
  import opened Retrying

  // `refusal` is the verdict of the URL, header and method checks, which foreign libraries make.
  datatype Endpoint = Endpoint(refusal: Option<string>, retry: Option<Retry>)

  datatype Job = Job(id: string, input: Endpoint, output: Endpoint, callback: Endpoint,
                     args: seq<string>, outputExtension: string)

  const INPUT := "{input}"
  const OUTPUT := "{output}"

  predicate IsAlphanumeric(c: char) {
    IsDigit(c) || 'a' <= c <= 'z' || 'A' <= c <= 'Z'
  }

  predicate ValidId(id: string) {
    && 1 <= |id| <= 80
    && forall i | 0 <= i < |id| :: IsAlphanumeric(id[i]) || id[i] in "-_."
  }

  predicate ValidExtension(extension: string) {
    && 1 <= |extension| <= 10
    && forall i | 0 <= i < |extension| :: IsAlphanumeric(extension[i])
  }

  predicate ValidSizes(args: seq<string>) {
    && |args| <= 128
    && forall i | 0 <= i < |args| :: |args[i]| <= 4096 && '\0' !in args[i]
  }

  // The indices at which `word` stands, in order.
  function Positions(args: seq<string>, word: string): seq<nat> {
    if args == [] then []
    else
      var n := |args| - 1;
      Positions(args[..n], word) + if args[n] == word then [n] else []
  }

  function ValidateEndpoint(endpoint: Endpoint): Option<string> {
    if endpoint.refusal.Some? then endpoint.refusal
    else if endpoint.retry.Some? then ValidateRetry(endpoint.retry.value)
    else None
  }

  predicate ValidPlaceholders(args: seq<string>) {
    var inputs := Positions(args, INPUT);
    && |inputs| == 1
    && 0 < inputs[0] <= |args|
    && args[inputs[0] - 1] == "-i"
    && |Positions(args, "-i")| == 1
    && |Positions(args, OUTPUT)| == 1
    && args != [] && args[|args| - 1] == OUTPUT
  }

  const ID_MESSAGE := "id must contain 1..80 ASCII letters, digits, dashes, underscores or dots"
  const EXTENSION_MESSAGE := "output_extension must contain 1..10 ASCII letters or digits"
  const ARGS_MESSAGE := "too many or oversized FFmpeg arguments"
  const PLACEHOLDERS_MESSAGE := "args must have one '-i', followed by '{input}', and end with one '{output}'"

  // The message of the first check that fails, or None for a valid job.
  function Validate(job: Job): Option<string> {
    if !ValidId(job.id) then Some(ID_MESSAGE)
    else if !ValidExtension(job.outputExtension) then Some(EXTENSION_MESSAGE)
    else if !ValidSizes(job.args) then Some(ARGS_MESSAGE)
    else if !ValidPlaceholders(job.args) then Some(PLACEHOLDERS_MESSAGE)
    else if ValidateEndpoint(job.input).Some? then ValidateEndpoint(job.input)
    else if ValidateEndpoint(job.output).Some? then ValidateEndpoint(job.output)
    else ValidateEndpoint(job.callback)
  }

  lemma {:induction false} PositionsExact(args: seq<string>, word: string)
    ensures forall p :: p in Positions(args, word) <==> 0 <= p < |args| && args[p] == word
    ensures forall j, k | 0 <= j < k < |Positions(args, word)| ::
              Positions(args, word)[j] < Positions(args, word)[k]
    ensures |Positions(args, word)| > 1 ==> Positions(args, word)[0] < Positions(args, word)[1]
  {
    if args != [] {
      var n := |args| - 1;
      PositionsExact(args[..n], word);
      var before := Positions(args[..n], word);
      forall j, k | 0 <= j < k < |Positions(args, word)|
        ensures Positions(args, word)[j] < Positions(args, word)[k]
      {
        assert before[j] in before;
      }
    }
  }

  lemma OnePosition(args: seq<string>, word: string, p: nat)
    requires p < |args| && args[p] == word && |Positions(args, word)| == 1
    ensures forall q | 0 <= q < |args| :: args[q] == word <==> q == p
  {
    PositionsExact(args, word);
    var found := Positions(args, word);
    assert p in found;
    forall q | 0 <= q < |args| && args[q] == word ensures q == p {
      assert q in found;
    }
  }

  // What the placeholder check amounts to: one pair "-i", "{input}" and a final "{output}".
  ghost predicate Shaped(args: seq<string>, k: nat) {
    && k + 2 < |args|
    && (forall q | 0 <= q < |args| :: args[q] == "-i" <==> q == k)
    && (forall q | 0 <= q < |args| :: args[q] == INPUT <==> q == k + 1)
    && (forall q | 0 <= q < |args| :: args[q] == OUTPUT <==> q == |args| - 1)
  }

  lemma {:induction false} OnlyPosition(args: seq<string>, word: string, p: nat)
    requires p < |args| && forall q | 0 <= q < |args| :: args[q] == word <==> q == p
    ensures Positions(args, word) == [p]
  {
    PositionsExact(args, word);
    var found := Positions(args, word);
    assert p in found;
    forall j | 0 <= j < |found| ensures found[j] == p {
      assert found[j] in found;
    }
  }

  // Both directions: the check accepts exactly the shaped argument lists.
  lemma PlaceholdersExact(args: seq<string>)
    ensures ValidPlaceholders(args) <==> exists k: nat :: Shaped(args, k)
  {
    PositionsExact(args, INPUT);
    if ValidPlaceholders(args) {
      var p := Positions(args, INPUT)[0];
      assert p in Positions(args, INPUT);
      OnePosition(args, INPUT, p);
      OnePosition(args, "-i", p - 1);
      OnePosition(args, OUTPUT, |args| - 1);
      assert args[p] != args[|args| - 1];
      assert Shaped(args, p - 1);
    }
    if k: nat :| Shaped(args, k) {
      OnlyPosition(args, "-i", k);
      OnlyPosition(args, INPUT, k + 1);
      OnlyPosition(args, OUTPUT, |args| - 1);
    }
  }

  // ---- what a valid job is

  ghost predicate Letters(text: string, most: nat, others: string) {
    && 1 <= |text| <= most
    && forall i | 0 <= i < |text| ::
         'a' <= text[i] <= 'z' || 'A' <= text[i] <= 'Z' || '0' <= text[i] <= '9' || text[i] in others
  }

  ghost predicate Bounded(args: seq<string>) {
    |args| < 129 && forall arg | arg in args :: |arg| < 4097 && forall i | 0 <= i < |arg| :: arg[i] != '\0'
  }

  // The fault of an endpoint: that of its request before that of its retry policy.
  ghost predicate Faulty(endpoint: Endpoint, message: string) {
    endpoint.refusal == Some(message)
    || (endpoint.refusal.None? && endpoint.retry.Some? && message == RETRY_MESSAGE
        && (endpoint.retry.value.maxAttempts !in {1, 2, 3, 4, 5, 6, 7, 8, 9, 10}
            || endpoint.retry.value.delayMs > 60000))
  }

  ghost predicate Usable(endpoint: Endpoint) { !exists message :: Faulty(endpoint, message) }

  lemma EndpointExact(endpoint: Endpoint, message: string)
    ensures ValidateEndpoint(endpoint) == Some(message) <==> Faulty(endpoint, message)
    ensures ValidateEndpoint(endpoint).None? <==> Usable(endpoint)
  {
    if endpoint.refusal.Some? {
      assert Faulty(endpoint, endpoint.refusal.value);
    } else if ValidateEndpoint(endpoint).Some? {
      assert Faulty(endpoint, RETRY_MESSAGE);
    }
  }

  // Exactly the jobs with a proper id and extension, bounded and well-shaped arguments and usable
  // endpoints are valid.
  lemma ValidateExact(job: Job)
    ensures Validate(job) == None <==>
            && Letters(job.id, 80, "-_.") && Letters(job.outputExtension, 10, "") && Bounded(job.args)
            && (exists k :: Shaped(job.args, k))
            && Usable(job.input) && Usable(job.output) && Usable(job.callback)
  {
    SizesExact(job.args);
    PlaceholdersExact(job.args);
    EndpointExact(job.input, "");
    EndpointExact(job.output, "");
    EndpointExact(job.callback, "");
    hide ValidSizes, Bounded, ValidPlaceholders, Shaped, ValidateEndpoint, Usable;
  }

  // Any other job is refused with the message of its first fault.
  lemma ValidateMessages(job: Job, message: string)
    ensures !Letters(job.id, 80, "-_.") ==> Validate(job) == Some(ID_MESSAGE)
    ensures Letters(job.id, 80, "-_.") ==>
              && (!Letters(job.outputExtension, 10, "") ==> Validate(job) == Some(EXTENSION_MESSAGE))
              && (Letters(job.outputExtension, 10, "") && !Bounded(job.args) ==> Validate(job) == Some(ARGS_MESSAGE))
    ensures Letters(job.id, 80, "-_.") && Letters(job.outputExtension, 10, "") && Bounded(job.args) ==>
              && ((forall k :: !Shaped(job.args, k)) ==> Validate(job) == Some(PLACEHOLDERS_MESSAGE))
              && ((exists k :: Shaped(job.args, k)) ==>
                    && (Faulty(job.input, message) ==> Validate(job) == Some(message))
                    && (Usable(job.input) && Faulty(job.output, message) ==> Validate(job) == Some(message))
                    && (Usable(job.input) && Usable(job.output) && Faulty(job.callback, message) ==>
                          Validate(job) == Some(message)))
  {
    SizesExact(job.args);
    PlaceholdersExact(job.args);
    EndpointExact(job.input, message);
    EndpointExact(job.output, message);
    EndpointExact(job.callback, message);
    hide ValidSizes, Bounded, ValidPlaceholders, Shaped, ValidateEndpoint, Usable, Faulty;
  }

  lemma SizesExact(args: seq<string>)
    ensures ValidSizes(args) <==> Bounded(args)
  {
    if ValidSizes(args) {
      forall arg, i | arg in args && 0 <= i < |arg| ensures |arg| < 4097 && arg[i] != '\0' {
        assert arg[i] in arg;
      }
    }
    if Bounded(args) {
      forall i | 0 <= i < |args| ensures |args[i]| <= 4096 && '\0' !in args[i] {
        assert args[i] in args;
      }
    }
  }

  // A validated job gives every retry loop an attempt to make.
  ghost predicate HasAttempts(job: Job) {
    && 1 <= Attempts(job.input.retry, 1) <= 10
    && 1 <= Attempts(job.output.retry, 1) <= 10
    && 1 <= Attempts(job.callback.retry, 1) <= 10 && 1 <= Attempts(job.callback.retry, 3) <= 10
  }

  lemma ValidJobHasAttempts(job: Job)
    requires Validate(job).None?
    ensures HasAttempts(job)
  {
  }

  lemma ValidJobIsShaped(job: Job)
    requires Validate(job).None?
    ensures exists k: nat :: Shaped(job.args, k)
  {
    PlaceholdersExact(job.args);
  }

  const PREFIX: seq<string> :=
    ["-nostdin", "-hide_banner", "-nostats", "-progress", "pipe:1", "-stats_period", "1", "-y"]

  function InputPath(directory: string): string { directory + "/input" }

  function OutputPath(directory: string, extension: string): string {
    directory + "/output." + extension
  }

  // FFmpeg reads one file of the job's directory and writes another, with the extension asked for.
  lemma PathsApart(directory: string, extension: string)
    ensures InputPath(directory) != OutputPath(directory, extension)
    ensures directory + "/" <= InputPath(directory) && directory + "/" <= OutputPath(directory, extension)
    ensures var path := OutputPath(directory, extension);
            |extension| < |path| && path[|path| - |extension| - 1..] == "." + extension
  {
    assert InputPath(directory)[|directory| + 1] == 'i' && OutputPath(directory, extension)[|directory| + 1] == 'o';
  }

  // The prefix, the job's arguments with the downloaded file in place of {input}, and in place of
  // {output} the size limit and the output file.
  ghost predicate CommandVector(job: Job, directory: string, maxOutput: nat, vector: seq<string>) {
    var n := |job.args|;
    && |vector| == 8 + n + 2 && n > 0
    && (forall i | 0 <= i < 8 :: vector[i] == PREFIX[i])
    && (forall i | 8 <= i < 8 + n - 1 ::
          vector[i] == if job.args[i - 8] == INPUT then InputPath(directory) else job.args[i - 8])
    && vector[7 + n] == "-fs" && vector[8 + n] == Decimal(maxOutput)
    && vector[9 + n] == OutputPath(directory, job.outputExtension)
  }

  method CommandArguments(job: Job, directory: string, maxOutput: nat) returns (vector: seq<string>)
    requires Validate(job).None?
    ensures CommandVector(job, directory, maxOutput, vector)
  {
    hide Validate;
    ValidJobIsShaped(job);
    vector := PREFIX;
    for n := 0 to |job.args|
      invariant n < |job.args| ==> |vector| == 8 + n
      invariant n == |job.args| ==> CommandVector(job, directory, maxOutput, vector)
      invariant |vector| >= 8 && forall i | 0 <= i < 8 :: vector[i] == PREFIX[i]
      invariant forall i | 8 <= i < 8 + n && i < 7 + |job.args| && i < |vector| ::
                  vector[i] == if job.args[i - 8] == INPUT then InputPath(directory) else job.args[i - 8]
    {
      var arg := job.args[n];
      if arg == INPUT {
        vector := vector + [InputPath(directory)];
      } else if arg == OUTPUT {
        vector := vector + ["-fs", Decimal(maxOutput)] + [OutputPath(directory, job.outputExtension)];
      } else {
        vector := vector + [arg];
      }
    }
  }

  lemma {:induction false} DecimalIsDigits(n: nat)
    ensures forall i | 0 <= i < |Decimal(n)| :: IsDigit(Decimal(n)[i])
  {
    if n >= 10 {
      DecimalIsDigits(n / 10);
    }
  }

  // What FFmpeg makes of the vector: k holds its only "-i", and the input file follows.
  ghost predicate ReadsOnly(vector: seq<string>, input: string, k: nat) {
    && k + 1 < |vector|
    && vector[k + 1] == input
    && forall q | 0 <= q < |vector| :: vector[q] == "-i" <==> q == k
  }

  lemma CommandReadsOneInput(job: Job, directory: string, maxOutput: nat, vector: seq<string>)
    requires Validate(job).None? && CommandVector(job, directory, maxOutput, vector)
    ensures exists k: nat :: ReadsOnly(vector, InputPath(directory), k)
    ensures INPUT !in vector && OUTPUT !in vector
  {
    hide Validate, ValidPlaceholders, Decimal;
    ValidJobIsShaped(job);
    var k: nat :| Shaped(job.args, k);
    DecimalIsDigits(maxOutput);
    var input, output := InputPath(directory), OutputPath(directory, job.outputExtension);
    assert input[|directory|] == '/' && output[|directory|] == '/';
    assert '/' in input && '/' in output && '/' !in "-i" && '/' !in INPUT && '/' !in OUTPUT;
    assert !IsDigit("-i"[0]) && !IsDigit(INPUT[0]) && !IsDigit(OUTPUT[0]);
    forall q | 0 <= q < |vector|
      ensures vector[q] != INPUT && vector[q] != OUTPUT && (vector[q] == "-i" <==> q == 8 + k)
    {
      if 8 <= q < 7 + |job.args| {
        assert job.args[q - 8] == "-i" <==> q - 8 == k;
        assert job.args[q - 8] == OUTPUT <==> q - 8 == |job.args| - 1;
      }
    }
    assert job.args[k + 1] == INPUT;
    assert ReadsOnly(vector, input, 8 + k);
  }
}
