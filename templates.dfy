/** `getTemplateForStep` of lib/agent-instructions.ts: the choice of
    Terraform or workflow templates for a blueprint step, from keywords in
    its lower-cased module name and title, looked for in a fixed order. A
    template is named by its key; the text behind each key is not part of
    this model. */
module Templates {
  import opened Files

  /** `BlueprintStep['type']`. */
  datatype StepType = TerraformEnvironment | TerraformModule | GithubActions

  /** The fields of a `BlueprintStep` the choice reads; `title` and
      `moduleName` are read through optional chaining, so both may be missing. */
  datatype Step = Step(title: Option<string>, stepType: StepType, moduleName: Option<string>)

  /** The keys handed to `getTemplate`. */
  datatype TemplateKey =
    | S3Main | S3Variables | S3Outputs
    | VpcMain | VpcVariables | VpcOutputs
    | RdsMain | RdsVariables | RdsOutputs
    | LambdaMain | LambdaVariables | LambdaOutputs
    | GithubActionsWorkflow

  /** The returned object: each slot holds a key or is absent. */
  datatype Templates = Templates(main: Option<TemplateKey>, variables: Option<TemplateKey>, outputs: Option<TemplateKey>)

  // ------------------------------------------------------------ lower case

  /** `toLowerCase` on one code point, for the code points whose lower case
      contains an ASCII letter: `A`-`Z`, U+0130 (which becomes `i` and a
      combining dot) and the Kelvin sign U+212A (which becomes `k`). Every
      other code point is kept; its lower case has no ASCII letter, so it
      can take no part in a keyword match. */
  function LowerChar(c: char): (r: string)
    ensures |r| >= 1
    ensures forall k :: 0 <= k < |r| ==> !('A' <= r[k] <= 'Z')
    ensures 'A' <= c <= 'Z' ==> r == [(c as int + 32) as char] && 'a' <= r[0] <= 'z'
    ensures !('A' <= c <= 'Z') && c != '\U{0130}' && c != '\U{212A}' ==> r == [c]
  {
    if 'A' <= c <= 'Z' then [(c as int + 32) as char]
    else if c == '\U{0130}' then ['i', '\U{0307}']
    else if c == '\U{212A}' then ['k']
    else [c]
  }

  /** `s.toLowerCase()`, code point by code point. */
  function Lower(s: string): (r: string)
    ensures |r| >= |s|
    ensures forall k :: 0 <= k < |r| ==> !('A' <= r[k] <= 'Z')
  {
    if s == [] then [] else LowerChar(s[0]) + Lower(s[1..])
  }

  lemma {:induction false} LowerAppend(a: string, b: string)
    ensures Lower(a + b) == Lower(a) + Lower(b)
  {
    if a == [] {
      assert a + b == b;
    } else {
      assert (a + b)[0] == a[0];
      assert (a + b)[1..] == a[1..] + b;
      LowerAppend(a[1..], b);
      assert Lower(a + b) == LowerChar(a[0]) + (Lower(a[1..]) + Lower(b));
    }
  }

  /** A text whose every code point lower-cases to itself is unchanged. */
  lemma {:induction false} LowerFixed(s: string)
    requires forall k :: 0 <= k < |s| ==> LowerChar(s[k]) == [s[k]]
    ensures Lower(s) == s
  {
    if s != [] {
      LowerFixed(s[1..]);
    }
  }

  lemma LowerCharLower(c: char)
    ensures Lower(LowerChar(c)) == LowerChar(c)
  {
    LowerFixed(LowerChar(c));
  }

  /** Lower-casing twice is lower-casing once. */
  lemma {:induction false} LowerIdempotent(s: string)
    ensures Lower(Lower(s)) == Lower(s)
  {
    if s != [] {
      LowerAppend(LowerChar(s[0]), Lower(s[1..]));
      LowerCharLower(s[0]);
      LowerIdempotent(s[1..]);
    }
  }

  /** `x?.toLowerCase() || ''`. */
  function Text(x: Option<string>): string {
    match x
    case None => ""
    case Some(s) => Lower(s)
  }

  /** `s.includes(w)`: `w` occurs in `s` at some position. */
  predicate Contains(s: string, w: string)
    decreases |s|
  {
    |w| <= |s| && (s[..|w|] == w || Contains(s[1..], w))
  }

  /** A word with a character the text lacks does not occur in it. */
  lemma {:induction false} Lacks(s: string, w: string, c: char)
    requires c in w && c !in s
    ensures !Contains(s, w)
    decreases |s|
  {
    if |w| <= |s| {
      Lacks(s[1..], w, c);
    }
  }

  // --------------------------------------------------------------- the choice

  function S3Templates(): Templates {
    Templates(Some(S3Main), Some(S3Variables), Some(S3Outputs))
  }

  function VpcTemplates(): Templates {
    Templates(Some(VpcMain), Some(VpcVariables), Some(VpcOutputs))
  }

  function RdsTemplates(): Templates {
    Templates(Some(RdsMain), Some(RdsVariables), Some(RdsOutputs))
  }

  function LambdaTemplates(): Templates {
    Templates(Some(LambdaMain), Some(LambdaVariables), Some(LambdaOutputs))
  }

  function WorkflowTemplates(): Templates {
    Templates(Some(GithubActionsWorkflow), None, None)
  }

  /** `getTemplateForStep`: the first group of keywords found in the module
      name or the title picks its templates; a workflow step with no keyword
      gets the workflow template alone; anything else gets the VPC templates. */
  function TemplateForStep(step: Step): Templates {
    var moduleName := Text(step.moduleName);
    var stepTitle := Text(step.title);
    if || Contains(moduleName, "s3") || Contains(moduleName, "cloudfront") || Contains(moduleName, "static")
       || Contains(stepTitle, "s3") || Contains(stepTitle, "cloudfront") || Contains(stepTitle, "static")
    then S3Templates()
    else if Contains(moduleName, "vpc") || Contains(stepTitle, "vpc") then VpcTemplates()
    else if || Contains(moduleName, "rds") || Contains(moduleName, "postgres") || Contains(moduleName, "database")
            || Contains(stepTitle, "rds") || Contains(stepTitle, "database")
    then RdsTemplates()
    else if || Contains(moduleName, "lambda") || Contains(moduleName, "api")
            || Contains(stepTitle, "lambda") || Contains(stepTitle, "api")
    then LambdaTemplates()
    else if step.stepType == GithubActions then WorkflowTemplates()
    else VpcTemplates()
  }

  // ------------------------------------------------- the rule as a table

  /** The template families, in the order they are tried. */
  datatype Family = S3 | Vpc | Rds | Lambda

  function Rank(f: Family): nat {
    match f
    case S3 => 0
    case Vpc => 1
    case Rds => 2
    case Lambda => 3
  }

  /** The keywords each family looks for in the module name. */
  function ModuleWords(f: Family): seq<string> {
    match f
    case S3 => ["s3", "cloudfront", "static"]
    case Vpc => ["vpc"]
    case Rds => ["rds", "postgres", "database"]
    case Lambda => ["lambda", "api"]
  }

  /** The keywords each family looks for in the title: the same, except
      that `postgres` is looked for in the module name only. */
  function TitleWords(f: Family): seq<string> {
    match f
    case S3 => ["s3", "cloudfront", "static"]
    case Vpc => ["vpc"]
    case Rds => ["rds", "database"]
    case Lambda => ["lambda", "api"]
  }

  function Slots(f: Family): Templates {
    match f
    case S3 => S3Templates()
    case Vpc => VpcTemplates()
    case Rds => RdsTemplates()
    case Lambda => LambdaTemplates()
  }

  /** Some keyword of `f` occurs in the lower-cased module name or title. */
  predicate Matches(f: Family, step: Step) {
    || (exists w :: w in ModuleWords(f) && Contains(Text(step.moduleName), w))
    || (exists w :: w in TitleWords(f) && Contains(Text(step.title), w))
  }

  lemma MatchesS3(step: Step)
    ensures Matches(S3, step) <==>
              || Contains(Text(step.moduleName), "s3") || Contains(Text(step.moduleName), "cloudfront")
              || Contains(Text(step.moduleName), "static") || Contains(Text(step.title), "s3")
              || Contains(Text(step.title), "cloudfront") || Contains(Text(step.title), "static")
  {
  }

  lemma MatchesVpc(step: Step)
    ensures Matches(Vpc, step) <==> Contains(Text(step.moduleName), "vpc") || Contains(Text(step.title), "vpc")
  {
  }

  lemma MatchesRds(step: Step)
    ensures Matches(Rds, step) <==>
              || Contains(Text(step.moduleName), "rds") || Contains(Text(step.moduleName), "postgres")
              || Contains(Text(step.moduleName), "database") || Contains(Text(step.title), "rds")
              || Contains(Text(step.title), "database")
  {
  }

  lemma MatchesLambda(step: Step)
    ensures Matches(Lambda, step) <==>
              || Contains(Text(step.moduleName), "lambda") || Contains(Text(step.moduleName), "api")
              || Contains(Text(step.title), "lambda") || Contains(Text(step.title), "api")
  {
  }

  lemma MatchesAll(step: Step)
    ensures Matches(S3, step) <==>
              || Contains(Text(step.moduleName), "s3") || Contains(Text(step.moduleName), "cloudfront")
              || Contains(Text(step.moduleName), "static") || Contains(Text(step.title), "s3")
              || Contains(Text(step.title), "cloudfront") || Contains(Text(step.title), "static")
    ensures Matches(Vpc, step) <==> Contains(Text(step.moduleName), "vpc") || Contains(Text(step.title), "vpc")
    ensures Matches(Rds, step) <==>
              || Contains(Text(step.moduleName), "rds") || Contains(Text(step.moduleName), "postgres")
              || Contains(Text(step.moduleName), "database") || Contains(Text(step.title), "rds")
              || Contains(Text(step.title), "database")
    ensures Matches(Lambda, step) <==>
              || Contains(Text(step.moduleName), "lambda") || Contains(Text(step.moduleName), "api")
              || Contains(Text(step.title), "lambda") || Contains(Text(step.title), "api")
  {
    MatchesS3(step);
    MatchesVpc(step);
    MatchesRds(step);
    MatchesLambda(step);
  }

  /** The first family in order whose keywords occur picks the templates. */
  lemma FirstMatchWins(step: Step, f: Family)
    requires Matches(f, step)
    requires forall g :: Rank(g) < Rank(f) ==> !Matches(g, step)
    ensures TemplateForStep(step) == Slots(f)
  {
    MatchesAll(step);
  }

  /** With no keyword, a workflow step gets the workflow template alone and
      every other step the VPC templates. */
  lemma NoMatchDefault(step: Step)
    requires forall g :: !Matches(g, step)
    ensures TemplateForStep(step) == if step.stepType == GithubActions then WorkflowTemplates() else VpcTemplates()
  {
    MatchesAll(step);
    assert !Matches(S3, step) && !Matches(Vpc, step) && !Matches(Rds, step) && !Matches(Lambda, step);
  }

  /** Conversely, a family's templates come out only when the family
      matches and no earlier one does, or, for VPC, by default. */
  lemma ChoiceExplained(step: Step)
    ensures var t := TemplateForStep(step);
            && (t == S3Templates() <==> Matches(S3, step))
            && (t == RdsTemplates() <==> !Matches(S3, step) && !Matches(Vpc, step) && Matches(Rds, step))
            && (t == LambdaTemplates() <==>
                  !Matches(S3, step) && !Matches(Vpc, step) && !Matches(Rds, step) && Matches(Lambda, step))
            && (t == WorkflowTemplates() <==>
                  !Matches(S3, step) && !Matches(Vpc, step) && !Matches(Rds, step) && !Matches(Lambda, step)
                  && step.stepType == GithubActions)
            && (t == VpcTemplates() <==>
                  !Matches(S3, step)
                  && (Matches(Vpc, step)
                      || (!Matches(Rds, step) && !Matches(Lambda, step) && step.stepType != GithubActions)))
  {
    MatchesAll(step);
  }

  // ------------------------------------------------------------- the slots

  /** `main` is always present; every outcome but the workflow one fills all
      three slots from one family, and the workflow one fills `main` only. */
  lemma SlotsOfChoice(step: Step)
    ensures var t := TemplateForStep(step);
            && t.main.Some?
            && (t.main == Some(GithubActionsWorkflow) <==> t.variables.None?)
            && (t.main == Some(GithubActionsWorkflow) ==> t == WorkflowTemplates())
            && (t.main != Some(GithubActionsWorkflow) ==> exists f :: t == Slots(f))
  {
    var t := TemplateForStep(step);
    if t == S3Templates() {
      assert t == Slots(S3);
    } else if t == VpcTemplates() {
      assert t == Slots(Vpc);
    } else if t == RdsTemplates() {
      assert t == Slots(Rds);
    } else if t == LambdaTemplates() {
      assert t == Slots(Lambda);
    }
  }

  /** A workflow step with no keyword gets the workflow template alone. */
  lemma WorkflowStepAlone(step: Step)
    requires step.stepType == GithubActions && forall g :: !Matches(g, step)
    ensures TemplateForStep(step) == Templates(Some(GithubActionsWorkflow), None, None)
  {
    NoMatchDefault(step);
  }

  // ------------------------------------------------------- input handling

  /** The choice reads a step only through its lower-cased texts and its type. */
  lemma SameText(a: Step, b: Step)
    requires a.stepType == b.stepType
    requires Text(a.title) == Text(b.title) && Text(a.moduleName) == Text(b.moduleName)
    ensures TemplateForStep(a) == TemplateForStep(b)
  {
  }

  function LowerOption(x: Option<string>): Option<string> {
    match x
    case None => None
    case Some(s) => Some(Lower(s))
  }

  lemma TextLowerOption(x: Option<string>)
    ensures Text(LowerOption(x)) == Text(x)
  {
    if x.Some? {
      LowerIdempotent(x.value);
    }
  }

  /** The choice ignores letter case: lower-casing the inputs first gives
      the same templates. */
  lemma CaseInsensitive(step: Step)
    ensures TemplateForStep(step) ==
              TemplateForStep(Step(LowerOption(step.title), step.stepType, LowerOption(step.moduleName)))
  {
    TextLowerOption(step.title);
    TextLowerOption(step.moduleName);
    SameText(step, Step(LowerOption(step.title), step.stepType, LowerOption(step.moduleName)));
  }

  /** A missing module name or title counts as an empty one. */
  lemma MissingIsEmpty(step: Step)
    ensures TemplateForStep(step.(title := None)) == TemplateForStep(step.(title := Some("")))
    ensures TemplateForStep(step.(moduleName := None)) == TemplateForStep(step.(moduleName := Some("")))
  {
    SameText(step.(title := None), step.(title := Some("")));
    SameText(step.(moduleName := None), step.(moduleName := Some("")));
  }

  /** A Terraform step with no module name and no title gets the VPC templates. */
  lemma EmptyTerraformStep(t: StepType)
    requires t != GithubActions
    ensures TemplateForStep(Step(None, t, None)) == VpcTemplates()
    ensures TemplateForStep(Step(Some(""), t, Some(""))) == VpcTemplates()
  {
    forall g ensures !Matches(g, Step(None, t, None)) && !Matches(g, Step(Some(""), t, Some(""))) {
      forall w | w in ModuleWords(g) || w in TitleWords(g) ensures !Contains("", w) {
        assert |w| > 0;
      }
    }
    NoMatchDefault(Step(None, t, None));
    NoMatchDefault(Step(Some(""), t, Some("")));
  }

  // ------------------------------------------------------------- postgres

  /** The characters of `postgres` include none of `3`, `a`, `c`, `d`, `v`. */
  lemma PostgresLetters()
    ensures Contains("postgres", "postgres")
    ensures '3' !in "postgres" && 'a' !in "postgres" && 'c' !in "postgres" && 'd' !in "postgres" && 'v' !in "postgres"
  {
    assert "postgres"[..8] == "postgres";
  }

  /** A text without `3`, `a`, `c`, `d` and `v` holds no keyword but
      `postgres`: each other keyword has one of them. */
  lemma FewLetters(s: string)
    requires '3' !in s && 'a' !in s && 'c' !in s && 'd' !in s && 'v' !in s
    ensures !Contains(s, "s3") && !Contains(s, "cloudfront") && !Contains(s, "static")
    ensures !Contains(s, "vpc") && !Contains(s, "rds") && !Contains(s, "database")
    ensures !Contains(s, "lambda") && !Contains(s, "api")
  {
    Lacks(s, "s3", '3');
    Lacks(s, "cloudfront", 'c');
    Lacks(s, "static", 'a');
    Lacks(s, "vpc", 'v');
    Lacks(s, "rds", 'd');
    Lacks(s, "database", 'd');
    Lacks(s, "lambda", 'a');
    Lacks(s, "api", 'a');
  }

  /** A text holding `postgres` and no other keyword picks the RDS templates
      as a module name and nothing as a title. */
  lemma PostgresOnly(step: Step, s: string)
    requires Contains(s, "postgres")
    requires '3' !in s && 'a' !in s && 'c' !in s && 'd' !in s && 'v' !in s
    requires step.stepType != GithubActions
    ensures Text(step.moduleName) == s && Text(step.title) == "" ==> TemplateForStep(step) == RdsTemplates()
    ensures Text(step.title) == s && Text(step.moduleName) == "" ==> TemplateForStep(step) == VpcTemplates()
  {
    FewLetters(s);
  }

  /** `postgres` in the module name picks the RDS templates; in the title
      alone it picks nothing, and the VPC default applies. */
  lemma PostgresInModuleNameOnly()
    ensures TemplateForStep(Step(None, TerraformModule, Some("postgres"))) == RdsTemplates()
    ensures TemplateForStep(Step(Some("postgres"), TerraformModule, None)) == VpcTemplates()
  {
    var s := "postgres";
    PostgresLetters();
    assert Lower(s) == s by {
      LowerFixed(s);
    }
    PostgresOnly(Step(None, TerraformModule, Some(s)), s);
    PostgresOnly(Step(Some(s), TerraformModule, None), s);
  }
}
