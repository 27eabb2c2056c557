/** The static command table `_parser_commands` of parser.h and the
    case-insensitive lookup the dispatcher performs on it. */
module Commands {
  import opened Ascii

  const CMD_NONE: int := -1
  const CMD_HELP: int := 0
  const CMD_INFO: int := 1
  const CMD_DIR: int := 11
  const CMD_DEL: int := 12
  const CMD_CAT: int := 13
  const CMD_UPLOAD: int := 14

  /** One `parserCmd_t`; the help texts `parms` and `desc` are not modelled. */
  datatype Command = Command(id: int, name: seq<byte>, args: nat, hasStream: bool, abortable: bool)

  /** `_parser_commands`, in its declaration (and help) order. */
  const Table: seq<Command> := [
    Command(CMD_HELP, "HELP", 0, false, false),
    Command(CMD_INFO, "INFO", 2, false, true),
    Command(CMD_DEL, "DEL", 1, false, true),
    Command(CMD_CAT, "CAT", 1, false, true),
    Command(CMD_UPLOAD, "UPLOAD", 1, true, true),
    Command(CMD_DIR, "DIR", 0, false, true)
  ]

  const HELP_INDEX: nat := 0
  const INFO_INDEX: nat := 1
  const DEL_INDEX: nat := 2
  const CAT_INDEX: nat := 3
  const UPLOAD_INDEX: nat := 4
  const DIR_INDEX: nat := 5

  /** Facts about the table that the dispatcher relies on: ids are distinct
      and never `PARSER_CMD_NONE`, names are distinct even ignoring case, no
      command takes more than two arguments, only `HELP` ignores the abort
      flag and only `UPLOAD` consumes a stream. */
  lemma TableFacts()
    ensures forall i, j :: 0 <= i < j < |Table| ==> Table[i].id != Table[j].id
    ensures forall i :: 0 <= i < |Table| ==> Table[i].id != CMD_NONE && |Table[i].name| > 0
    ensures forall i, j :: 0 <= i < j < |Table| ==> !EqualsIgnoreCase(Table[i].name, Table[j].name)
    ensures forall i :: 0 <= i < |Table| ==> Table[i].args <= 2
    ensures forall i :: 0 <= i < |Table| ==> (Table[i].abortable <==> i != HELP_INDEX)
    ensures forall i :: 0 <= i < |Table| ==> (Table[i].hasStream <==> i == UPLOAD_INDEX)
  {
    assert !EqualsIgnoreCase(Table[0].name, Table[1].name) by {
      assert ToLower(Table[0].name[0]) != ToLower(Table[1].name[0]);
    }
    assert !EqualsIgnoreCase(Table[2].name, Table[3].name) by {
      assert ToLower(Table[2].name[0]) != ToLower(Table[3].name[0]);
    }
    assert !EqualsIgnoreCase(Table[2].name, Table[5].name) by {
      assert ToLower(Table[2].name[1]) != ToLower(Table[5].name[1]);
    }
    assert !EqualsIgnoreCase(Table[3].name, Table[5].name) by {
      assert ToLower(Table[3].name[0]) != ToLower(Table[5].name[0]);
    }
  }

  /** The scan of the table from index `i` on. */
  function LookupFrom(token: seq<byte>, i: nat): (r: Option<nat>)
    ensures r.Some? ==> i <= r.value < |Table| && EqualsIgnoreCase(Table[r.value].name, token)
    decreases |Table| - i
  {
    if i >= |Table| then None
    else if EqualsIgnoreCase(Table[i].name, token) then Some(i)
    else LookupFrom(token, i + 1)
  }

  /** The command a token names, if any: the first entry whose name equals
      the token ignoring case. */
  function Lookup(token: seq<byte>): (r: Option<nat>)
    ensures r.Some? ==> r.value < |Table| && EqualsIgnoreCase(Table[r.value].name, token)
  {
    LookupFrom(token, 0)
  }

  lemma {:induction false} LookupFromSpec(token: seq<byte>, i: nat)
    ensures var r := LookupFrom(token, i);
      (r.Some? ==> i <= r.value < |Table| && EqualsIgnoreCase(Table[r.value].name, token) &&
                   forall j :: i <= j < r.value ==> !EqualsIgnoreCase(Table[j].name, token)) &&
      (r.None? ==> forall j :: i <= j < |Table| ==> !EqualsIgnoreCase(Table[j].name, token))
    decreases |Table| - i
  {
    if i < |Table| && !EqualsIgnoreCase(Table[i].name, token) {
      LookupFromSpec(token, i + 1);
    }
  }

  /** Lookup finds an entry exactly when some name matches, and the entry it
      finds is the only one that matches. */
  lemma LookupSpec(token: seq<byte>)
    ensures Lookup(token).Some? <==> exists j :: 0 <= j < |Table| && EqualsIgnoreCase(Table[j].name, token)
    ensures Lookup(token).Some? ==>
      Lookup(token).value < |Table| &&
      forall j :: 0 <= j < |Table| ==> (EqualsIgnoreCase(Table[j].name, token) <==> j == Lookup(token).value)
  {
    LookupFromSpec(token, 0);
    TableFacts();
    var r := Lookup(token);
    if r.Some? {
      forall j | 0 <= j < |Table| && j != r.value
        ensures !EqualsIgnoreCase(Table[j].name, token)
      {
        if j > r.value {
          NotEqualsIgnoreCase(Table[r.value].name, Table[j].name, token);
        }
      }
    }
  }

  /** A name that differs from the one a token matches does not match it. */
  lemma NotEqualsIgnoreCase(a: seq<byte>, b: seq<byte>, token: seq<byte>)
    requires EqualsIgnoreCase(a, token) && !EqualsIgnoreCase(a, b)
    ensures !EqualsIgnoreCase(b, token)
  {
  }

  /** The `for` loop of `parserProcessCommands` that compares the token with
      each table entry by `strcasecmp` and stops at the first match. */
  method FindCommand(token: seq<byte>) returns (r: Option<nat>)
    ensures r == Lookup(token)
  {
    var index := 0;
    while index < |Table|
      invariant 0 <= index <= |Table|
      invariant LookupFrom(token, index) == Lookup(token)
    {
      if EqualsIgnoreCase(Table[index].name, token) {
        return Some(index);
      }
      index := index + 1;
    }
    return None;
  }
}
