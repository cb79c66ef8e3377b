/** VpmUtils.PromptYayOrNay and ConfirmContinue. The console is modelled as
    the sequence of values Console.ReadLine returns (None for null) and the
    lines written with Console.WriteLine as an output sequence.
    Line numbers in the comments refer to vpm/src/vpm/utils.cs. */
module Prompt {
  import opened Wrappers

  /** What is printed while the question is still "first": the question
      with its suffix, then the note when it is not empty. */
  function Banner(question: string, note: string): seq<string> {
    [question + " (Yay or Nay)"] + (if note == "" then [] else [note])
  }

  /** How one non-null answer line is read: any y or Y means yes (so "Nay"
      is a yes), otherwise any n or N means no, otherwise it is not an
      answer. */
  function Classify(line: string): Option<bool> {
    if 'y' in line || 'Y' in line then Some(true)
    else if 'n' in line || 'N' in line then Some(false)
    else None
  }

  /** The verdict of the first line that classifies; None if no line does. */
  function Decision(lines: seq<Option<string>>): Option<bool> {
    if lines == [] then None
    else if lines[0].Some? && Classify(lines[0].value).Some? then Classify(lines[0].value)
    else Decision(lines[1..])
  }

  /** Line k decides with verdict b: it is non-null, it classifies as b, and
      every earlier line was null or not an answer. */
  ghost predicate DecidesAt(lines: seq<Option<string>>, k: int, b: bool) {
    && 0 <= k < |lines|
    && lines[k].Some? && Classify(lines[k].value) == Some(b)
    && forall j :: 0 <= j < k ==> lines[j].None? || Classify(lines[j].value).None?
  }

  /** The verdict is that of the first answering line, in both directions. */
  lemma {:induction false} DecisionIsFirstAnswer(lines: seq<Option<string>>, b: bool)
    ensures Decision(lines) == Some(b) <==> exists k :: DecidesAt(lines, k, b)
  {
    if lines == [] {
    } else if lines[0].Some? && Classify(lines[0].value).Some? {
      if Classify(lines[0].value) == Some(b) {
        assert DecidesAt(lines, 0, b);
      } else {
        forall k | 0 <= k < |lines| ensures !DecidesAt(lines, k, b) {
          if k > 0 {
            assert lines[0].Some? && Classify(lines[0].value).Some?;
          }
        }
      }
    } else {
      DecisionIsFirstAnswer(lines[1..], b);
      if Decision(lines[1..]) == Some(b) {
        var k :| DecidesAt(lines[1..], k, b);
        assert DecidesAt(lines, k + 1, b) by {
          forall j | 0 <= j < k + 1
            ensures lines[j].None? || Classify(lines[j].value).None?
          {
            if j > 0 {
              assert lines[j] == lines[1..][j - 1];
            }
          }
        }
      } else {
        forall k | DecidesAt(lines, k, b) ensures false {
          assert k > 0;
          assert DecidesAt(lines[1..], k - 1, b) by {
            forall j | 0 <= j < k - 1
              ensures lines[1..][j].None? || Classify(lines[1..][j].value).None?
            {
              assert lines[1..][j] == lines[j + 1];
            }
          }
        }
      }
    }
  }

  /** The output of the prompt loop over `lines`, given the `first` flag on
      entry: the banner before every read while `first` holds; a null line
      leaves `first` alone, an answer ends the loop, any other line clears
      `first`. */
  function Transcript(question: string, note: string, lines: seq<Option<string>>, first: bool): seq<string> {
    if lines == [] then []
    else
      (if first then Banner(question, note) else [])
      + match lines[0]
        case None => Transcript(question, note, lines[1..], first)
        case Some(line) =>
          if Classify(line).Some? then [] else Transcript(question, note, lines[1..], false)
  }

  /** `n` copies of `block`, one after the other. */
  function Repeat(block: seq<string>, n: nat): (r: seq<string>)
    ensures |r| == n * |block|
  {
    if n == 0 then [] else block + Repeat(block, n - 1)
  }

  /** The banner is printed before each of the first k + 1 reads, where k is
      the index of the first non-null line, and never after; while only
      nulls arrive it is printed before every read. */
  lemma {:induction false} BannerUntilFirstLine(question: string, note: string, lines: seq<Option<string>>, k: nat)
    requires k <= |lines|
    requires forall j :: 0 <= j < k ==> lines[j].None?
    requires k < |lines| ==> lines[k].Some?
    ensures Transcript(question, note, lines, true)
      == Repeat(Banner(question, note), if k == |lines| then k else k + 1)
  {
    if k == 0 {
      if lines != [] {
        NoBannerOnceCleared(question, note, lines[1..]);
      }
    } else {
      assert lines[0].None?;
      BannerUntilFirstLine(question, note, lines[1..], k - 1);
    }
  }

  /** Once `first` is cleared nothing more is printed. */
  lemma {:induction false} NoBannerOnceCleared(question: string, note: string, lines: seq<Option<string>>)
    ensures Transcript(question, note, lines, false) == []
  {
    if lines != [] {
      NoBannerOnceCleared(question, note, lines[1..]);
    }
  }

  /** One read of the loop: the banner if `first`, then what the line leads
      to; and the verdict is the line's own or that of the rest. */
  lemma ReadStep(question: string, note: string, input: seq<Option<string>>, i: nat, first: bool)
    requires i < |input|
    ensures Transcript(question, note, input[i..], first)
         == (if first then Banner(question, note) else [])
            + match input[i]
              case None => Transcript(question, note, input[i + 1..], first)
              case Some(line) =>
                if Classify(line).Some? then [] else Transcript(question, note, input[i + 1..], false)
    ensures Decision(input[i..])
         == if input[i].Some? && Classify(input[i].value).Some? then Classify(input[i].value)
            else Decision(input[i + 1..])
  {
    assert input[i..][1..] == input[i + 1..];
  }

  lemma Regroup(done: seq<string>, banner: seq<string>, rest: seq<string>)
    ensures done + (banner + rest) == (done + banner) + rest
  {
  }

  /** Lines 43-65. The source loops until an answer arrives; when the modelled
      input runs out first, the answer is None. */
  method PromptYayOrNay(question: string, note: string, input: seq<Option<string>>)
    returns (answer: Option<bool>, output: seq<string>)
    ensures answer == Decision(input)
    ensures output == Transcript(question, note, input, true)
  {
    var first := true;
    var i := 0;
    output := [];
    while i < |input|
      invariant 0 <= i <= |input|
      invariant Decision(input[i..]) == Decision(input)
      invariant output + Transcript(question, note, input[i..], first) == Transcript(question, note, input, true)
    {
      ReadStep(question, note, input, i, first);
      ghost var done := output;
      ghost var banner := if first then Banner(question, note) else [];
      if first {
        output := output + Banner(question, note);
      }
      assert output == done + banner;
      var decision := input[i];
      i := i + 1;
      if decision.None? {
        Regroup(done, banner, Transcript(question, note, input[i..], first));
        continue;
      }
      var line := decision.value;
      if 'y' in line || 'Y' in line {
        assert Classify(line) == Some(true);
        Regroup(done, banner, []);
        return Some(true), output;
      }
      if 'n' in line || 'N' in line {
        assert Classify(line) == Some(false);
        Regroup(done, banner, []);
        return Some(false), output;
      }
      assert Classify(line) == None;
      first := false;
      Regroup(done, banner, Transcript(question, note, input[i..], first));
    }
    assert input[i..] == [];
    answer := None;
  }

  /** What ConfirmContinue does after asking. */
  datatype Continuation = Continue | CleanUpAndExit

  const ContinueQuestion: string := "Do you still want to continue?"

  /** Lines 67-73: quiet mode continues without asking; otherwise a yes
      continues and a no cleans up and exits. */
  method ConfirmContinue(quiet: bool, input: seq<Option<string>>)
    returns (outcome: Option<Continuation>, output: seq<string>)
    ensures quiet ==> outcome == Some(Continue) && output == []
    ensures !quiet ==> output == Transcript(ContinueQuestion, "", input, true)
    ensures !quiet ==> outcome == match Decision(input)
                                  case None => None
                                  case Some(yes) => Some(if yes then Continue else CleanUpAndExit)
  {
    if quiet {
      return Some(Continue), [];
    }
    var yes;
    yes, output := PromptYayOrNay(ContinueQuestion, "", input);
    if yes.None? {
      return None, output;
    }
    outcome := Some(if yes.value then Continue else CleanUpAndExit);
  }

  /** "Nay" contains a y, so it is read as yes. */
  lemma NayIsYes()
    ensures Decision([Some("Nay")]) == Some(true)
  {
    assert 'y' in "Nay";
  }
}
