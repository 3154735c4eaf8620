/**
 * A command line as the runners build it: simple commands joined into an
 * AND-OR list by `&&` and `||`, each simple command either a `cd` or a
 * program with arguments and an optional `<` redirect of its standard input.
 * `Render` gives the exact text handed to the shell; `Run` gives the order in
 * which an AND-OR list runs its commands (section 2.9.3 of the POSIX Shell
 * Command Language), from whether each one succeeds.
 */
module ShellCommand {
  import opened Wrappers

  /** A word of the command line: as written, in double quotes, or two words written without a space. */
  datatype Word = Bare(text: string) | Quoted(text: string) | Glued(head: Word, tail: Word)

  /** A simple command. */
  datatype Step =
    | ChangeDir(dir: Word)
    | Invoke(program: Word, args: seq<Word>, stdin: Option<Word>)

  datatype Connector = AndIf | OrIf

  /** An AND-OR list; `&&` and `||` have equal precedence and group to the left. */
  datatype Command = Simple(step: Step) | Then(first: Command, op: Connector, next: Step)

  function WordText(w: Word): string {
    match w
    case Bare(t) => t
    case Quoted(t) => "\"" + t + "\""
    case Glued(h, t) => WordText(h) + WordText(t)
  }

  function ArgsText(args: seq<Word>): string {
    if args == [] then "" else " " + WordText(args[0]) + ArgsText(args[1..])
  }

  function StepText(s: Step): string {
    match s
    case ChangeDir(d) => "cd " + WordText(d)
    case Invoke(p, args, stdin) =>
      WordText(p) + ArgsText(args) + (if stdin.Some? then " < " + WordText(stdin.value) else "")
  }

  function ConnectorText(op: Connector): string {
    if op == AndIf then " && " else " || "
  }

  /** The command line as text. */
  function Render(c: Command): (r: string)
    ensures c.Then? ==> Render(c.first) <= r
    ensures c.Then? ==> |Render(c.first)| + 4 <= |r| && r[|Render(c.first)|..|Render(c.first)| + 4] == ConnectorText(c.op)
  {
    match c
    case Simple(s) => StepText(s)
    case Then(first, op, next) => Render(first) + ConnectorText(op) + StepText(next)
  }

  /** The simple commands of the list, left to right. */
  function Steps(c: Command): (steps: seq<Step>)
    ensures |steps| >= 1
  {
    match c
    case Simple(s) => [s]
    case Then(first, _, next) => Steps(first) + [next]
  }

  /**
   * Running an AND-OR list, given whether the simple command at each position
   * succeeds: the positions that run, in order, and the exit status of the
   * list. After `&&` the next command runs only if the list so far succeeded,
   * after `||` only if it failed.
   */
  function Run(c: Command, succeeds: nat -> bool): (r: (seq<nat>, bool))
    ensures |r.0| >= 1 && r.0[0] == 0
    ensures forall k :: 0 <= k < |r.0| ==> r.0[k] < |Steps(c)|
    ensures forall j, k :: 0 <= j < k < |r.0| ==> r.0[j] < r.0[k]
    ensures r.1 == succeeds(r.0[|r.0| - 1])
  {
    match c
    case Simple(_) => ([0], succeeds(0))
    case Then(first, op, _) =>
      var (ran, ok) := Run(first, succeeds);
      var n := |Steps(first)|;
      if (op == AndIf && ok) || (op == OrIf && !ok) then (ran + [n], succeeds(n)) else (ran, ok)
  }

  /** The commands of a list of three, left to right. */
  lemma StepsOfThree(a: Step, op1: Connector, b: Step, op2: Connector, c: Step)
    ensures Steps(Then(Then(Simple(a), op1, b), op2, c)) == [a, b, c]
  {
    assert Steps(Simple(a)) == [a];
    assert Steps(Then(Simple(a), op1, b)) == [a, b];
  }

  /** `a && b && c`: each command runs only when all before it succeeded. */
  lemma RunAndList(a: Step, b: Step, c: Step, succeeds: nat -> bool)
    ensures Run(Then(Then(Simple(a), AndIf, b), AndIf, c), succeeds)
      == if !succeeds(0) then ([0], false)
         else if !succeeds(1) then ([0, 1], false)
         else ([0, 1, 2], succeeds(2))
  {
    StepsOfThree(a, AndIf, b, AndIf, c);
    var first := Then(Simple(a), AndIf, b);
    assert Run(Simple(a), succeeds) == ([0], succeeds(0));
    assert [0] + [1] == [0, 1] && [0, 1] + [2] == [0, 1, 2];
    assert Run(first, succeeds) == if succeeds(0) then ([0, 1], succeeds(1)) else ([0], false);
  }

  /** `a || b`: the second command runs only when the first failed. */
  lemma RunOrList(a: Step, b: Step, succeeds: nat -> bool)
    ensures Run(Then(Simple(a), OrIf, b), succeeds)
      == if succeeds(0) then ([0], true) else ([0, 1], succeeds(1))
  {
    assert Steps(Simple(a)) == [a];
    assert Run(Simple(a), succeeds) == ([0], succeeds(0));
    assert [0] + [1] == [0, 1];
  }
}
