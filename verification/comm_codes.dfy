/** The label-to-integer table of the coordination protocol
    (SimulationUtilities/Communication_Codes.py). */
module CommunicationCodes {
  import opened Wrappers

  /** The labels of the table, listed so that a label's position is its code. */
  const Labels: seq<string> := [
    "CLIENT_HAS_NO_TASK",
    "CLIENT_HAS_MIDPOINT_DATA",
    "SERVER_GIVES_NEW_TASK",
    "SERVER_REQUEST_CALLBACK",
    "CLIENT_PROVIDES_POINT",
    "SERVER_PROVIDES_VALUES",
    "CLIENT_ASKS_FOR_VALUES",
    "CLIENT_HEARTBEAT",
    "KILL",
    "CLIENT_FIRST_CONTACT"
  ]

  // The integer codes, as the protocol's participants use them.
  const CLIENT_HAS_NO_TASK: int := 0
  const CLIENT_HAS_MIDPOINT_DATA: int := 1
  const SERVER_GIVES_NEW_TASK: int := 2
  const SERVER_REQUEST_CALLBACK: int := 3
  const CLIENT_PROVIDES_POINT: int := 4
  const SERVER_PROVIDES_VALUES: int := 5
  const CLIENT_ASKS_FOR_VALUES: int := 6
  const CLIENT_HEARTBEAT: int := 7
  const KILL: int := 8
  const CLIENT_FIRST_CONTACT: int := 9

  /** Position of the first occurrence of `x` in `s`, if any. */
  function IndexOf(s: seq<string>, x: string): (r: Option<nat>)
    ensures r.Some? <==> x in s
    ensures r.Some? ==> r.value < |s| && s[r.value] == x
    ensures r.Some? ==> forall j :: 0 <= j < r.value ==> s[j] != x
  {
    if |s| == 0 then None
    else if s[0] == x then Some(0)
    else
      match IndexOf(s[1..], x)
      case None => None
      case Some(i) => Some(i + 1)
  }

  /** `comm_code(label)`: the code of a table label, `None` for any other
      string (the dictionary lookup's KeyError is caught). */
  function CommCode(name: string): (r: Option<nat>)
    ensures r.None? <==> name !in Labels
    ensures r.Some? ==> r.value < 10 && Labels[r.value] == name
  {
    IndexOf(Labels, name)
  }

  /** The inverse table: the label carrying a given code. */
  function LabelOf(code: int): (r: Option<string>)
    ensures r.Some? <==> 0 <= code < 10
    ensures r.Some? ==> r.value in Labels
  {
    if 0 <= code < |Labels| then Some(Labels[code]) else None
  }

  /** No two labels share a code. */
  lemma {:induction false} LabelsDistinct()
    ensures forall i, j :: 0 <= i < j < |Labels| ==> Labels[i] != Labels[j]
  {
  }

  /** In a list without repetitions, the first occurrence of an element is
      its only one. */
  lemma {:induction false} IndexOfDistinct(s: seq<string>, i: nat)
    requires i < |s|
    requires forall a, b :: 0 <= a < b < |s| ==> s[a] != s[b]
    ensures IndexOf(s, s[i]) == Some(i)
  {
  }

  /** The codes in use are exactly 0..9: every table label has a code below
      ten, and every code below ten is the code of one label. */
  lemma {:induction false} CodesAreZeroToNine()
    ensures forall l :: l in Labels ==> CommCode(l).Some? && CommCode(l).value < 10
    ensures forall c :: 0 <= c < 10 ==> CommCode(Labels[c]) == Some(c)
  {
    LabelsDistinct();
    forall c | 0 <= c < 10
      ensures CommCode(Labels[c]) == Some(c)
    {
      IndexOfDistinct(Labels, c);
    }
  }

  /** Decoding a label's code gives back the label, and encoding the label of
      a code gives back the code. */
  lemma {:induction false} RoundTrip()
    ensures forall l :: l in Labels ==> LabelOf(CommCode(l).value) == Some(l)
    ensures forall c :: 0 <= c < 10 ==> CommCode(LabelOf(c).value) == Some(c)
  {
    CodesAreZeroToNine();
  }

  /** The concrete values the server, client and potential rely on. */
  lemma {:induction false} FixedValues()
    ensures CommCode("CLIENT_HAS_NO_TASK") == Some(CLIENT_HAS_NO_TASK)
    ensures CommCode("CLIENT_HAS_MIDPOINT_DATA") == Some(CLIENT_HAS_MIDPOINT_DATA)
    ensures CommCode("SERVER_GIVES_NEW_TASK") == Some(SERVER_GIVES_NEW_TASK)
    ensures CommCode("SERVER_REQUEST_CALLBACK") == Some(SERVER_REQUEST_CALLBACK)
    ensures CommCode("CLIENT_PROVIDES_POINT") == Some(CLIENT_PROVIDES_POINT)
    ensures CommCode("SERVER_PROVIDES_VALUES") == Some(SERVER_PROVIDES_VALUES)
    ensures CommCode("CLIENT_ASKS_FOR_VALUES") == Some(CLIENT_ASKS_FOR_VALUES)
    ensures CommCode("CLIENT_HEARTBEAT") == Some(CLIENT_HEARTBEAT)
    ensures CommCode("KILL") == Some(KILL)
    ensures CommCode("CLIENT_FIRST_CONTACT") == Some(CLIENT_FIRST_CONTACT)
  {
    CodeOfLabel(0);
    CodeOfLabel(1);
    CodeOfLabel(2);
    CodeOfLabel(3);
    CodeOfLabel(4);
    CodeOfLabel(5);
    CodeOfLabel(6);
    CodeOfLabel(7);
    CodeOfLabel(8);
    CodeOfLabel(9);
  }

  /** The code of the label at position c is c. */
  lemma {:induction false} CodeOfLabel(c: nat)
    requires c < |Labels|
    ensures CommCode(Labels[c]) == Some(c)
  {
    LabelsDistinct();
    IndexOfDistinct(Labels, c);
  }
}
