/** The teaching panel's input check: the reference string must hold
    something besides white space, every comma-separated field must read as a
    number, and the frame count must lie between 1 and 10. */
module Validate {

  // ---------------------------------------------------------------- trim

  /** The characters `String.prototype.trim` removes: the white space and
      line terminators of ECMA-262 (sections 12.2 and 12.3). */
  predicate IsSpace(c: char) {
    var n := c as int;
    || n == 0x09 || n == 0x0A || n == 0x0B || n == 0x0C || n == 0x0D || n == 0x20
    || n == 0xA0 || n == 0x1680 || (0x2000 <= n <= 0x200A) || n == 0x2028 || n == 0x2029
    || n == 0x202F || n == 0x205F || n == 0x3000 || n == 0xFEFF
  }

  /** Nothing but white space. */
  predicate Blank(s: string) {
    forall k :: 0 <= k < |s| ==> IsSpace(s[k])
  }

  /** The number of white-space characters that open `s`. */
  function LeadingSpace(s: string): (i: nat)
    ensures i <= |s| && Blank(s[..i])
    ensures i < |s| ==> !IsSpace(s[i])
    decreases |s|
  {
    if |s| > 0 && IsSpace(s[0]) then
      var t := s[1..];
      var j := LeadingSpace(t);
      assert s[..j + 1] == [s[0]] + t[..j];
      assert j < |t| ==> s[j + 1] == t[j];
      1 + j
    else 0
  }

  /** Where the white space that closes `s` begins. */
  function TrailingSpace(s: string): (j: nat)
    ensures j <= |s| && Blank(s[j..])
    ensures j > 0 ==> !IsSpace(s[j - 1])
    decreases |s|
  {
    if |s| > 0 && IsSpace(s[|s| - 1]) then
      var t := s[..|s| - 1];
      var j := TrailingSpace(t);
      assert s[j..] == t[j..] + [s[|s| - 1]];
      assert j > 0 ==> s[j - 1] == t[j - 1];
      j
    else |s|
  }

  /** `s.trim()`. */
  function Trim(s: string): (r: string)
  {
    var i := LeadingSpace(s);
    var t := s[i..];
    t[..TrailingSpace(t)]
  }

  /** Trimming leaves a slice of `s` with white space only around it and no
      white space at either end. */
  lemma TrimShape(s: string)
    ensures exists i, j :: 0 <= i <= j <= |s| && Trim(s) == s[i..j] && Blank(s[..i]) && Blank(s[j..])
    ensures |Trim(s)| > 0 ==> !IsSpace(Trim(s)[0]) && !IsSpace(Trim(s)[|Trim(s)| - 1])
  {
    var i := LeadingSpace(s);
    var t := s[i..];
    var j := TrailingSpace(t);
    assert Trim(s) == s[i..i + j];
    assert s[i + j..] == t[j..];
  }

  /** A trimmed string is empty exactly when the input is blank. */
  lemma TrimEmpty(s: string)
    ensures Trim(s) == [] <==> Blank(s)
  {
    var i := LeadingSpace(s);
    var t := s[i..];
    var j := TrailingSpace(t);
    if Blank(s) {
      assert i == |s|;
    }
    if Trim(s) == [] {
      assert j == 0 && t[j..] == t;
      assert i == |s|;
      forall k | 0 <= k < |s|
        ensures IsSpace(s[k])
      {
        assert s[k] == s[..i][k];
      }
    }
  }

  /** Trimming twice trims nothing more. */
  lemma TrimIdempotent(s: string)
    ensures Trim(Trim(s)) == Trim(s)
  {
    var r := Trim(s);
    TrimShape(s);
    if |r| > 0 {
      assert LeadingSpace(r) == 0;
      assert TrailingSpace(r) == |r|;
    }
  }

  // ---------------------------------------------------------------- split

  /** The first position of `sep` in `s`, or `|s|` when there is none. */
  function FirstSep(s: string, sep: char): (i: nat)
    ensures i <= |s| && sep !in s[..i]
    ensures i < |s| ==> s[i] == sep
    decreases |s|
  {
    if |s| == 0 then 0
    else if s[0] == sep then 0
    else
      var j := FirstSep(s[1..], sep);
      assert s[..j + 1] == [s[0]] + s[1..][..j];
      1 + j
  }

  /** `s.split(sep)` for a one-character separator: the fields between the
      separators, from left to right, always at least one. */
  function Split(s: string, sep: char): (r: seq<string>)
    ensures |r| >= 1
    ensures forall k :: 0 <= k < |r| ==> sep !in r[k]
    decreases |s|
  {
    var i := FirstSep(s, sep);
    if i == |s| then [s]
    else [s[..i]] + Split(s[i + 1..], sep)
  }

  /** `parts.join(sep)`. */
  function Join(parts: seq<string>, sep: char): string
    requires |parts| >= 1
    decreases |parts|
  {
    if |parts| == 1 then parts[0]
    else parts[0] + [sep] + Join(parts[1..], sep)
  }

  /** Joining a part in front of more parts puts a separator between them. */
  lemma JoinCons(head: string, rest: seq<string>, sep: char)
    requires |rest| >= 1
    ensures Join([head] + rest, sep) == head + [sep] + Join(rest, sep)
  {
    var parts := [head] + rest;
    assert parts[0] == head && parts[1..] == rest;
  }

  /** Joining the fields back with the separator gives the string again. */
  lemma {:induction false} JoinSplit(s: string, sep: char)
    ensures Join(Split(s, sep), sep) == s
    decreases |s|
  {
    var i := FirstSep(s, sep);
    if i < |s| {
      JoinSplit(s[i + 1..], sep);
      JoinSplitStep(s, sep, i);
    }
  }

  /** The step of `JoinSplit`: the first field, the separator, and the
      rejoined rest. */
  lemma JoinSplitStep(s: string, sep: char, i: nat)
    requires i < |s| && i == FirstSep(s, sep)
    requires Join(Split(s[i + 1..], sep), sep) == s[i + 1..]
    ensures Join(Split(s, sep), sep) == s
  {
    var rest := Split(s[i + 1..], sep);
    assert Split(s, sep) == [s[..i]] + rest;
    JoinCons(s[..i], rest, sep);
    Around(s, i);
  }

  /** A string is what comes before position `i`, the character there, and
      what comes after. */
  lemma Around(s: string, i: nat)
    requires i < |s|
    ensures s[..i] + [s[i]] + s[i + 1..] == s
  {
  }

  /** The first field of a join is the first part when no part holds the
      separator. */
  lemma FirstSepOfJoin(parts: seq<string>, sep: char)
    requires |parts| >= 2 && sep !in parts[0]
    ensures FirstSep(Join(parts, sep), sep) == |parts[0]|
    ensures var s := Join(parts, sep); s[..|parts[0]|] == parts[0] && s[|parts[0]| + 1..] == Join(parts[1..], sep)
  {
    var s := Join(parts, sep);
    var rest := Join(parts[1..], sep);
    assert s == parts[0] + [sep] + rest;
    assert s[..|parts[0]|] == parts[0];
    assert s[|parts[0]| + 1..] == rest;
    FirstSepAt(s, sep, |parts[0]|);
  }

  /** The first separator is at `i` when `s[i]` is one and no earlier
      character is. */
  lemma {:induction false} FirstSepAt(s: string, sep: char, i: nat)
    requires i < |s| && s[i] == sep && sep !in s[..i]
    ensures FirstSep(s, sep) == i
    decreases i
  {
    if i > 0 {
      assert s[0] in s[..i];
      assert s[1..][..i - 1] == s[1..i];
      assert sep !in s[1..][..i - 1] by {
        assert forall x :: x in s[1..i] ==> x in s[..i];
      }
      FirstSepAt(s[1..], sep, i - 1);
    }
  }

  /** Splitting a join of separator-free parts gives the parts back. */
  lemma {:induction false} SplitJoin(parts: seq<string>, sep: char)
    requires |parts| >= 1
    requires forall k :: 0 <= k < |parts| ==> sep !in parts[k]
    ensures Split(Join(parts, sep), sep) == parts
    decreases |parts|
  {
    var s := Join(parts, sep);
    if |parts| == 1 {
      assert FirstSep(s, sep) == |s|;
    } else {
      FirstSepOfJoin(parts, sep);
      SplitJoin(parts[1..], sep);
      assert parts == [parts[0]] + parts[1..];
    }
  }

  // ---------------------------------------------------------------- inputs

  /** The frame count as `Number(e.target.value)` leaves it. */
  datatype FrameInput = NaN | Finite(value: real) | PlusInfinity | MinusInfinity

  /** What the check reports: nothing, or the message it shows. */
  datatype Verdict = Accepted | Rejected(message: string)

  const EmptyMessage: string := "Page sequence cannot be empty"
  const NumberMessage: string := "Page sequence must contain only numbers separated by commas"
  const FrameMessage: string := "Frame count must be between 1 and 10"

  /** `isNaN(frameCount) || frameCount < 1 || frameCount > 10`; infinities
      compare as the extremes they are. */
  predicate FrameCountRejected(f: FrameInput) {
    match f
    case NaN => true
    case MinusInfinity => true
    case PlusInfinity => true
    case Finite(v) => v < 1.0 || v > 10.0
  }

  /** The fields of the trimmed sequence, each trimmed again. */
  function Fields(pageSequence: string): (r: seq<string>)
    ensures |r| == |Split(Trim(pageSequence), ',')|
  {
    var parts := Split(Trim(pageSequence), ',');
    seq(|parts|, k requires 0 <= k < |parts| => Trim(parts[k]))
  }

  /** `validateInputs()`. `isNumber(t)` stands for `!isNaN(Number(t))`,
      JavaScript's reading of a string as a number, which this model does not
      spell out. */
  function ValidateInputs(pageSequence: string, frameCount: FrameInput, isNumber: string -> bool): (r: Verdict)
    ensures r.Rejected? ==> r.message in {EmptyMessage, NumberMessage, FrameMessage}
  {
    var fields := Fields(pageSequence);
    if Trim(pageSequence) == [] then Rejected(EmptyMessage)
    else if exists k :: 0 <= k < |fields| && !isNumber(fields[k]) then Rejected(NumberMessage)
    else if FrameCountRejected(frameCount) then Rejected(FrameMessage)
    else Accepted
  }

  /** The check passes exactly when the sequence is not blank, every field
      reads as a number, and the frame count is a number from 1 to 10. */
  lemma AcceptedIff(pageSequence: string, frameCount: FrameInput, isNumber: string -> bool)
    ensures ValidateInputs(pageSequence, frameCount, isNumber) == Accepted
        <==> && !Blank(pageSequence)
             && (forall t :: t in Fields(pageSequence) ==> isNumber(t))
             && frameCount.Finite? && 1.0 <= frameCount.value <= 10.0
  {
    TrimEmpty(pageSequence);
  }

  /** A blank sequence is reported first, whatever the frame count. */
  lemma BlankRejected(pageSequence: string, frameCount: FrameInput, isNumber: string -> bool)
    requires Blank(pageSequence)
    ensures ValidateInputs(pageSequence, frameCount, isNumber) == Rejected(EmptyMessage)
  {
    TrimEmpty(pageSequence);
  }

  /** A field that does not read as a number is reported before the frame
      count is looked at. */
  lemma BadFieldRejected(pageSequence: string, frameCount: FrameInput, isNumber: string -> bool, k: nat)
    requires !Blank(pageSequence) && k < |Fields(pageSequence)| && !isNumber(Fields(pageSequence)[k])
    ensures ValidateInputs(pageSequence, frameCount, isNumber) == Rejected(NumberMessage)
  {
    TrimEmpty(pageSequence);
  }

  /** With a good sequence, a frame count outside 1 to 10 is reported. */
  lemma FrameCountChecked(pageSequence: string, frameCount: FrameInput, isNumber: string -> bool)
    requires ValidateInputs(pageSequence, frameCount, isNumber) != Rejected(EmptyMessage)
    requires ValidateInputs(pageSequence, frameCount, isNumber) != Rejected(NumberMessage)
    ensures ValidateInputs(pageSequence, frameCount, isNumber) == Rejected(FrameMessage)
        <==> !(frameCount.Finite? && 1.0 <= frameCount.value <= 10.0)
  {
  }

  /** The fields are the pieces between the commas of the trimmed sequence:
      putting them back together with commas, before their own trimming,
      gives that sequence. */
  lemma FieldsRejoin(pageSequence: string)
    ensures Join(Split(Trim(pageSequence), ','), ',') == Trim(pageSequence)
    ensures forall k :: 0 <= k < |Fields(pageSequence)| ==> ',' !in Fields(pageSequence)[k]
  {
    var parts := Split(Trim(pageSequence), ',');
    JoinSplit(Trim(pageSequence), ',');
    forall k | 0 <= k < |parts|
      ensures ',' !in Fields(pageSequence)[k]
    {
      TrimShape(parts[k]);
    }
  }
}
