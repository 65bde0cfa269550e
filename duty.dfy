/** Duty codes of the roster grid.

    Cells of the source's DataFrames hold strings; the model parses each
    string into a `Duty` once, so that every known code is one constructor
    and "to be decided" (the empty string) is a state of its own. */
module Duties {

  datatype Duty =
    | Empty            // '' : not yet decided
    | D                // day duty
    | E                // evening duty
    | N                // night duty
    | O                // off, written by the engines
    | DH               // head-nurse day duty
    | Off              // off, written by the cyclic filler of schedule_app.py
    | V                // full leave
    | VQuarter         // 'v.25' : quarter leave
    | VHalf            // 'v.0.5' : half leave
    | MD               // make-up duty
    | Other(text: string)  // any other text found in a stored grid

  datatype Option<T> = None | Some(value: T)

  /** The text the source stores for a code. */
  function Text(c: Duty): string {
    match c
    case Empty => ""
    case D => "D"
    case E => "E"
    case N => "N"
    case O => "O"
    case DH => "DH"
    case Off => "Off"
    case V => "V"
    case VQuarter => "v.25"
    case VHalf => "v.0.5"
    case MD => "MD"
    case Other(t) => t
  }

  predicate IsKnownText(t: string) {
    t in {"", "D", "E", "N", "O", "DH", "Off", "V", "v.25", "v.0.5", "MD"}
  }

  /** Reads a stored cell: every known text becomes its constructor. */
  function Parse(t: string): (c: Duty)
    ensures Text(c) == t
    ensures c.Other? <==> !IsKnownText(t)
  {
    if t == "" then Empty
    else if t == "D" then D
    else if t == "E" then E
    else if t == "N" then N
    else if t == "O" then O
    else if t == "DH" then DH
    else if t == "Off" then Off
    else if t == "V" then V
    else if t == "v.25" then VQuarter
    else if t == "v.0.5" then VHalf
    else if t == "MD" then MD
    else Other(t)
  }

  /** A duty is well formed when an `Other` never carries a known text,
      which is what `Parse` guarantees. */
  predicate WellFormed(c: Duty) {
    c.Other? ==> !IsKnownText(c.text)
  }

  lemma ParseText(c: Duty)
    requires WellFormed(c)
    ensures Parse(Text(c)) == c
  {
    if c.Other? {
      assert !IsKnownText(c.text);
    }
  }

  /** WORK_DUTIES of schedule_app_patched_fixed.py and schedule_app.py. */
  predicate IsWork(c: Duty) {
    c == D || c == E || c == N || c == DH
  }

  /** WORK_DUTIES of optimized_shift_scheduler.py (DH is a preserved code there). */
  predicate IsWork3(c: Duty) {
    c == D || c == E || c == N
  }

  /** The summary's weekend test: the cell's text contains one of the
      letters of 'D|E|N|DH', so 'MD' and 'DH' count as weekend work too. */
  predicate MentionsWork(c: Duty) {
    var t := Text(c);
    'D' in t || 'E' in t || 'N' in t
  }

  lemma MentionsWorkOfCodes()
    ensures MentionsWork(D) && MentionsWork(E) && MentionsWork(N)
    ensures MentionsWork(DH) && MentionsWork(MD)
    ensures !MentionsWork(O) && !MentionsWork(Off) && !MentionsWork(Empty)
    ensures !MentionsWork(V) && !MentionsWork(VQuarter) && !MentionsWork(VHalf)
  {
    assert Text(D) == ['D'];
    assert Text(E) == ['E'];
    assert Text(N) == ['N'];
    assert Text(DH) == ['D', 'H'];
    assert Text(MD) == ['M', 'D'];
    assert Text(O) == ['O'];
    assert Text(Off) == ['O', 'f', 'f'];
    assert Text(V) == ['V'];
    assert Text(VQuarter) == ['v', '.', '2', '5'];
    assert Text(VHalf) == ['v', '.', '0', '.', '5'];
  }
}
