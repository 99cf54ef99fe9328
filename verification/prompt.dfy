/** Prompt construction and the error contract of the analysis call. The
    completion service is a function parameter; its output is taken as
    given. */
module Prompt {

  import opened Values
  import opened Strings
  import Columns

  /** The `video_data` dictionary handed to the prompt builder. */
  type Data = map<string, Value>

  /** What the prompt shows for one field: a value, or the "N/A" placeholder. */
  datatype Shown = Given(v: Value) | NotAvailable

  /** The eight raw fields, in prompt order. */
  const FieldKeys: seq<string> := ["Title", "Hook", "Caption", "Hashtags", "Views", "Likes", "Comments", "Saves"]

  /** Every key the prompt reads; no other key can change it. */
  const PromptKeys: seq<string> := FieldKeys + Columns.RatioColumns + Columns.LegacyRatioColumns

  /** `video_data.get(key, 'N/A')`. */
  function Field(data: Data, key: string): (f: Shown)
    ensures f.Given? <==> key in data
    ensures f.Given? ==> f.v == data[key]
  {
    if key in data then Given(data[key]) else NotAvailable
  }

  /** `video_data.get(current, video_data.get(legacy, 'N/A'))`: the current
      name wins, then the legacy name, then the placeholder. */
  function RatioField(data: Data, current: string, legacy: string): (f: Shown)
    ensures current in data ==> f == Given(data[current])
    ensures current !in data && legacy in data ==> f == Given(data[legacy])
    ensures f == NotAvailable <==> current !in data && legacy !in data
  {
    if current in data then Given(data[current])
    else if legacy in data then Given(data[legacy])
    else NotAvailable
  }

  /** The thirteen labelled fields, in prompt order: the eight raw fields,
      then the five ratios under their current names. */
  function PromptFields(data: Data): (fs: seq<(string, Shown)>)
    ensures |fs| == 13
    ensures forall i :: 0 <= i < 8 ==> fs[i].0 == FieldKeys[i] && fs[i].1 == Field(data, FieldKeys[i])
    ensures forall i :: 0 <= i < 5 ==>
      (fs[8 + i].0 == Columns.RatioColumns[i]
       && fs[8 + i].1 == RatioField(data, Columns.RatioColumns[i], Columns.LegacyRatioColumns[i]))
  {
    seq(8, i requires 0 <= i < 8 => (FieldKeys[i], Field(data, FieldKeys[i])))
    + seq(5, i requires 0 <= i < 5 =>
        (Columns.RatioColumns[i], RatioField(data, Columns.RatioColumns[i], Columns.LegacyRatioColumns[i])))
  }

  /** Python's `str()` of a cell inside the f-string; the text of a finite
      number is left to `showNum`. */
  function ShowValue(v: Value, showNum: real -> string): string {
    match v
    case Num(x) => showNum(x)
    case PosInf => "inf"
    case NegInf => "-inf"
    case NaN => "nan"
    case Str(s) => s
    case Missing => "None"
  }

  function Render(f: Shown, showNum: real -> string): string {
    match f
    case Given(v) => ShowValue(v, showNum)
    case NotAvailable => "N/A"
  }

  const Indent: string := "        "

  /** The prompt text before the fields. */
  const Intro: string :=
    "\n" + Indent + "SYSTEM ROLE:\n"
    + Indent + "You are an expert TikTok content strategist, data analyst, and viral growth consultant.\n"
    + Indent + "Your job is to deeply analyze the performance of each TikTok video based on provided performance data and storytelling structure.\n"
    + Indent + "Your analysis must be specific, reflective, and actionable — focused on improving future content to maximize virality.\n\n"
    + Indent + "DATA PROVIDED:\n\n"

  /** The fixed instructions after the fields (only their heading is kept). */
  const Instructions: string := Indent + "TASK:\n"

  /** One `Label: value` line followed by a blank line. */
  function FieldLine(name: string, text: string): string {
    Indent + name + ": " + text + "\n\n"
  }

  function FieldLines(data: Data, showNum: real -> string): (ls: seq<string>)
    ensures |ls| == 13
  {
    var fs := PromptFields(data);
    seq(13, i requires 0 <= i < 13 => FieldLine(fs[i].0, Render(fs[i].1, showNum)))
  }

  /** `_create_prompt`. */
  function CreatePrompt(data: Data, showNum: real -> string): string {
    Intro + Concat(FieldLines(data, showNum)) + Instructions
  }

  /** Where field `k`'s line starts in the prompt. */
  function LineOffset(data: Data, showNum: real -> string, k: nat): nat
    requires k <= 13
  {
    |Intro| + TotalLength(FieldLines(data, showNum)[..k])
  }

  lemma {:induction false} TotalLengthPrefixGrows(xs: seq<string>, k: nat)
    requires k < |xs| && |xs[k]| > 0
    ensures TotalLength(xs[..k]) < TotalLength(xs[..k + 1])
  {
    TotalLengthAppend(xs[..k], [xs[k]]);
    assert xs[..k] + [xs[k]] == xs[..k + 1];
  }

  lemma {:induction false} TotalLengthAppend(a: seq<string>, b: seq<string>)
    ensures TotalLength(a + b) == TotalLength(a) + TotalLength(b)
  {
    if |a| > 0 {
      assert (a + b)[1..] == a[1..] + b;
      TotalLengthAppend(a[1..], b);
    } else {
      assert a + b == b;
    }
  }

  lemma OccursInside(a: string, mid: string, b: string, piece: string, off: nat)
    requires OccursAt(mid, piece, off)
    ensures OccursAt(a + mid + b, piece, |a| + off)
  {
    var s := a + mid + b;
    assert s[|a| + off..|a| + off + |piece|] == mid[off..off + |piece|];
  }

  /** Field `k`'s line, `Label: value`, sits in the prompt at its offset,
      and the offsets increase with `k`: the thirteen fields appear in the
      fixed order. */
  lemma PromptLayout(data: Data, showNum: real -> string, k: nat)
    requires k < 13
    ensures OccursAt(CreatePrompt(data, showNum),
                     FieldLine(PromptFields(data)[k].0, Render(PromptFields(data)[k].1, showNum)),
                     LineOffset(data, showNum, k))
    ensures LineOffset(data, showNum, k) < LineOffset(data, showNum, k + 1)
  {
    var ls := FieldLines(data, showNum);
    ConcatPieceAt(ls, k);
    OccursInside(Intro, Concat(ls), Instructions, ls[k], TotalLength(ls[..k]));
    TotalLengthPrefixGrows(ls, k);
  }

  /** Two dictionaries that agree on every key the prompt reads give the
      same prompt: other keys do not matter. */
  lemma PromptDependsOnlyOnItsKeys(d1: Data, d2: Data, showNum: real -> string)
    requires forall k :: k in PromptKeys ==> (k in d1 <==> k in d2)
    requires forall k :: k in PromptKeys && k in d1 ==> d1[k] == d2[k]
    ensures CreatePrompt(d1, showNum) == CreatePrompt(d2, showNum)
  {
    assert forall i :: 0 <= i < 8 ==> FieldKeys[i] in PromptKeys;
    assert forall i :: 0 <= i < 5 ==> Columns.RatioColumns[i] in PromptKeys && Columns.LegacyRatioColumns[i] in PromptKeys;
    assert PromptFields(d1) == PromptFields(d2);
  }

  /** Outcome of the completion call: its text, or the message of the
      exception it raised. */
  datatype Completion = Replied(content: string) | Raised(message: string)

  const ErrorPrefix: string := "Error generating analysis: "

  /** `generate_analysis`: never fails; a raised error comes back as text. */
  function GenerateAnalysis(data: Data, showNum: real -> string, complete: string -> Completion): (r: string)
    ensures complete(CreatePrompt(data, showNum)).Raised? ==>
              r == ErrorPrefix + complete(CreatePrompt(data, showNum)).message
    ensures complete(CreatePrompt(data, showNum)).Replied? ==>
              r == complete(CreatePrompt(data, showNum)).content
  {
    match complete(CreatePrompt(data, showNum))
    case Replied(content) => content
    case Raised(message) => ErrorPrefix + message
  }

  /** A caller can tell a failed call from a reply by the error prefix, as
      long as no reply itself starts with it, and can read the error
      message back after the prefix. */
  lemma GenerateAnalysisErrorIff(data: Data, showNum: real -> string, complete: string -> Completion)
    requires complete(CreatePrompt(data, showNum)).Replied? ==>
               !(ErrorPrefix <= complete(CreatePrompt(data, showNum)).content)
    ensures var r := GenerateAnalysis(data, showNum, complete);
      && (ErrorPrefix <= r <==> complete(CreatePrompt(data, showNum)).Raised?)
      && (complete(CreatePrompt(data, showNum)).Raised? ==>
            r[|ErrorPrefix|..] == complete(CreatePrompt(data, showNum)).message)
  {
  }
}
