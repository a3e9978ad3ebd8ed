/**
 * src/gpg_helpers.rs: the parser of `gpg --list-secret-keys --with-colons`
 * and the derivation of secret names from the files under the vault.
 *
 * The gpg subprocess is replaced by its output, already cut into lines
 * (`RawLine`), and the directory walk by the sequence of entries it
 * yields (`WalkEntry`).
 */
module GpgHelpers {
  import opened Results
  import opened Strings
  import opened Errors

  /** A secret key: its key id and the user ids attached to it. */
  datatype KeyIdName = KeyIdName(id: string, name: string)

  /** `impl Display for KeyIdName`: "(id, name)". */
  function Display(key: KeyIdName): (r: string)
    ensures |r| == |key.id| + |key.name| + 4
    ensures StartsWith(r, "(" + key.id + ", ") && EndsWith(r, key.name + ")")
  {
    "(" + key.id + ", " + key.name + ")"
  }

  /** Key ids never contain a comma, so the display form determines the key. */
  lemma DisplayInjective(a: KeyIdName, b: KeyIdName)
    requires ',' !in a.id && ',' !in b.id
    requires Display(a) == Display(b)
    ensures a == b
  {
    DisplayFields(a);
    DisplayFields(b);
  }

  /** The first ',' of a display ends the id, and the name sits between ", " and the closing parenthesis. */
  lemma DisplayFields(key: KeyIdName)
    requires ',' !in key.id
    ensures var r := Display(key);
      && IndexOf(r, ',') == 1 + |key.id|
      && r[1..1 + |key.id|] == key.id
      && r[3 + |key.id|..|r| - 1] == key.name
  {
    var r := Display(key);
    assert r == "(" + key.id + [','] + (" " + key.name + ")");
    IndexOfAfter("(" + key.id, ',', " " + key.name + ")");
  }

  // ---------------------------------------------------------------------
  // The key-listing parser (get_secret_keys)
  // ---------------------------------------------------------------------

  /** One line of gpg's output: valid UTF-8 text, or bytes that do not decode. */
  datatype RawLine = Text(text: string) | Undecodable

  predicate IsSecLine(line: RawLine) {
    line.Text? && StartsWith(line.text, "sec")
  }

  /** The key id of a `sec` line: its field 4, or "" when the line has fewer than five fields. */
  function SecId(line: RawLine): string {
    if line.Text? then
      var fields := Split(line.text, ':');
      if |fields| > 4 then fields[4] else ""
    else ""
  }

  /** The user id a `uid` line contributes: its field 9, when the line has at least ten fields. */
  function UidFragment(line: RawLine): Option<string> {
    if line.Text? && StartsWith(line.text, "uid") then
      var fields := Split(line.text, ':');
      if |fields| > 9 then Some(fields[9]) else None
    else None
  }

  /** Adds a user id to a name, with ", " in front only when the name is not empty. */
  function AppendName(name: string, fragment: string): string {
    if name == "" then fragment else name + ", " + fragment
  }

  /**
   * The parser as an explicit state machine: before the first `sec` line
   * only a pending name exists (user ids seen so far); afterwards there is
   * a list of finished records and the record being accumulated.
   */
  datatype ParserState =
    | BeforeFirstRecord(pending: string)
    | Accumulating(done: seq<KeyIdName>, current: KeyIdName)
  {
    function Name(): string {
      if BeforeFirstRecord? then pending else current.name
    }

    function WithName(name: string): ParserState {
      if BeforeFirstRecord? then BeforeFirstRecord(name)
      else Accumulating(done, current.(name := name))
    }
  }

  /** One line's effect on the state. */
  function Step(st: ParserState, line: RawLine): ParserState {
    if IsSecLine(line) then
      match st
      case BeforeFirstRecord(pending) => Accumulating([], KeyIdName(SecId(line), pending))
      case Accumulating(done, current) => Accumulating(done + [current], KeyIdName(SecId(line), ""))
    else
      match UidFragment(line)
      case None => st
      case Some(fragment) => st.WithName(AppendName(st.Name(), fragment))
  }

  /** The state after the lines have been read, in order. */
  function Run(lines: seq<RawLine>): ParserState
    decreases |lines|
  {
    if |lines| == 0 then BeforeFirstRecord("")
    else Step(Run(lines[..|lines| - 1]), lines[|lines| - 1])
  }

  /** The records the parser returns once the input has ended. */
  function Finish(st: ParserState): seq<KeyIdName> {
    match st
    case BeforeFirstRecord(_) => []
    case Accumulating(done, current) => done + [current]
  }

  /** The result of parsing the whole listing. */
  function SecretKeys(lines: seq<RawLine>): seq<KeyIdName> {
    Finish(Run(lines))
  }

  /**
   * `get_secret_keys`: runs gpg (its output, or the error launching it, is
   * the parameter) and parses the listing line by line with a mutable
   * current key and an `initial` flag.
   */
  method GetSecretKeys(listing: Result<seq<RawLine>, IoError>) returns (r: Result<seq<KeyIdName>, VaultError>)
    ensures listing.Err? ==> r == Err(Io(listing.error))
    ensures listing.Ok? ==> r == Ok(SecretKeys(listing.value))
  {
    if listing.Err? {
      return Err(Io(listing.error));
    }
    var lines := listing.value;
    var keys: seq<KeyIdName> := [];
    var initial := true;
    var currentId, currentName := "", "";
    for i := 0 to |lines|
      invariant initial ==> keys == [] && currentId == ""
      invariant Run(lines[..i]) ==
        if initial then BeforeFirstRecord(currentName)
        else Accumulating(keys, KeyIdName(currentId, currentName))
    {
      assert lines[..i + 1][..i] == lines[..i];
      var line := lines[i];
      if line.Text? {
        var text := line.text;
        if StartsWith(text, "sec") {
          if initial {
            initial := false;
          } else {
            keys := keys + [KeyIdName(currentId, currentName)];
            currentId, currentName := "", "";
          }
          var parts := Split(text, ':');
          if |parts| > 4 {
            currentId := parts[4];
          }
        }
        if StartsWith(text, "uid") {
          var parts := Split(text, ':');
          if |parts| > 9 {
            if currentName != "" {
              currentName := currentName + ", ";
            }
            currentName := currentName + parts[9];
          }
        }
      }
    }
    assert lines[..|lines|] == lines;
    if !initial {
      keys := keys + [KeyIdName(currentId, currentName)];
    }
    return Ok(keys);
  }

  // ---------------------------------------------------------------------
  // What the parser computes, stated block by block
  // ---------------------------------------------------------------------

  predicate NoSecLine(lines: seq<RawLine>) {
    forall i :: 0 <= i < |lines| ==> !IsSecLine(lines[i])
  }

  /** The number of `sec` lines. */
  function CountSec(lines: seq<RawLine>): nat
    decreases |lines|
  {
    if |lines| == 0 then 0
    else CountSec(lines[..|lines| - 1]) + (if IsSecLine(lines[|lines| - 1]) then 1 else 0)
  }

  /** A name extended, in order, by the user ids of `lines`. */
  function AccumulateNames(name: string, lines: seq<RawLine>): string
    decreases |lines|
  {
    if |lines| == 0 then name
    else
      var before := AccumulateNames(name, lines[..|lines| - 1]);
      match UidFragment(lines[|lines| - 1])
      case None => before
      case Some(fragment) => AppendName(before, fragment)
  }

  /** A block: one `sec` line followed by lines that are not `sec` lines. */
  predicate IsBlock(block: seq<RawLine>) {
    |block| > 0 && IsSecLine(block[0]) && NoSecLine(block[1..])
  }

  function Flatten(blocks: seq<seq<RawLine>>): seq<RawLine>
    decreases |blocks|
  {
    if |blocks| == 0 then [] else Flatten(blocks[..|blocks| - 1]) + blocks[|blocks| - 1]
  }

  /** The record a block describes: the id of its `sec` line, and its user ids appended to `start`. */
  function BlockRecord(block: seq<RawLine>, start: string): KeyIdName
    requires IsBlock(block)
  {
    KeyIdName(SecId(block[0]), AccumulateNames(start, block[1..]))
  }

  /**
   * Every listing cuts into a prefix without `sec` lines and one block per
   * `sec` line, in input order.
   */
  function Decompose(lines: seq<RawLine>): (d: (seq<RawLine>, seq<seq<RawLine>>))
    ensures NoSecLine(d.0)
    ensures forall k :: 0 <= k < |d.1| ==> IsBlock(d.1[k])
    ensures d.0 + Flatten(d.1) == lines
    ensures |d.1| == CountSec(lines)
    decreases |lines|
  {
    if |lines| == 0 then ([], [])
    else
      var init := lines[..|lines| - 1];
      var line := lines[|lines| - 1];
      var (pre, blocks) := Decompose(init);
      assert lines == init + [line];
      if IsSecLine(line) then
        StartBlock(blocks, line);
        assert pre + Flatten(blocks + [[line]]) == (pre + Flatten(blocks)) + [line];
        (pre, blocks + [[line]])
      else if |blocks| == 0 then
        assert Flatten(blocks) == [];
        (pre + [line], [])
      else
        var blocks' := blocks[..|blocks| - 1] + [blocks[|blocks| - 1] + [line]];
        ExtendLastBlock(blocks, line);
        assert pre + Flatten(blocks') == (pre + Flatten(blocks)) + [line];
        (pre, blocks')
  }

  /** A `sec` line starts a new block. */
  lemma StartBlock(blocks: seq<seq<RawLine>>, line: RawLine)
    requires forall k :: 0 <= k < |blocks| ==> IsBlock(blocks[k])
    requires IsSecLine(line)
    ensures forall k :: 0 <= k < |blocks + [[line]]| ==> IsBlock((blocks + [[line]])[k])
    ensures Flatten(blocks + [[line]]) == Flatten(blocks) + [line]
  {
    var blocks' := blocks + [[line]];
    assert blocks'[..|blocks'| - 1] == blocks;
  }

  /** Any other line after the first `sec` line extends the last block. */
  lemma ExtendLastBlock(blocks: seq<seq<RawLine>>, line: RawLine)
    requires |blocks| > 0
    requires forall k :: 0 <= k < |blocks| ==> IsBlock(blocks[k])
    requires !IsSecLine(line)
    ensures var blocks' := blocks[..|blocks| - 1] + [blocks[|blocks| - 1] + [line]];
      && |blocks'| == |blocks|
      && (forall k :: 0 <= k < |blocks'| ==> IsBlock(blocks'[k]))
      && Flatten(blocks') == Flatten(blocks) + [line]
  {
    var last := blocks[|blocks| - 1];
    var blocks' := blocks[..|blocks| - 1] + [last + [line]];
    assert blocks'[..|blocks'| - 1] == blocks[..|blocks| - 1];
    assert (last + [line])[1..] == last[1..] + [line];
    assert IsBlock(last + [line]);
    assert forall k :: 0 <= k < |blocks'| - 1 ==> blocks'[k] == blocks[k];
    assert Flatten(blocks) == Flatten(blocks[..|blocks| - 1]) + last;
  }

  lemma RunSnoc(prefix: seq<RawLine>, line: RawLine)
    ensures Run(prefix + [line]) == Step(Run(prefix), line)
  {
    assert (prefix + [line])[..|prefix|] == prefix;
  }

  /** A line that contributes a user id is not a `sec` line. */
  lemma UidLineIsNotSec(line: RawLine)
    requires UidFragment(line).Some?
    ensures !IsSecLine(line)
  {
    assert line.text[..3] == "uid";
    assert "uid"[0] != "sec"[0];
  }

  /** Reading a block finishes the current record and starts the block's, from the pending name before the first block and from "" after it. */
  lemma RunBlock(x: seq<RawLine>, b: seq<RawLine>)
    requires IsBlock(b)
    ensures Run(x + b) == Accumulating(Finish(Run(x)), BlockRecord(b, if Run(x).BeforeFirstRecord? then Run(x).pending else ""))
  {
    assert x + b == (x + [b[0]]) + b[1..];
    RunSnoc(x, b[0]);
    RunNoSec(x + [b[0]], b[1..]);
  }

  /** Lines without `sec` lines only extend the current name. */
  lemma {:induction false} RunNoSec(prefix: seq<RawLine>, rest: seq<RawLine>)
    requires NoSecLine(rest)
    ensures Run(prefix + rest) == Run(prefix).WithName(AccumulateNames(Run(prefix).Name(), rest))
    decreases |rest|
  {
    if |rest| == 0 {
      assert prefix + rest == prefix;
    } else {
      var init := rest[..|rest| - 1];
      RunNoSec(prefix, init);
      assert prefix + rest == (prefix + init) + [rest[|rest| - 1]];
      RunSnoc(prefix + init, rest[|rest| - 1]);
    }
  }

  /** The records of a list of blocks, the first one built from `start`, the others from "". */
  function BlockRecords(start: string, blocks: seq<seq<RawLine>>): (records: seq<KeyIdName>)
    requires forall k :: 0 <= k < |blocks| ==> IsBlock(blocks[k])
    ensures |records| == |blocks|
    decreases |blocks|
  {
    if |blocks| == 0 then []
    else
      var init := blocks[..|blocks| - 1];
      assert forall k :: 0 <= k < |init| ==> init[k] == blocks[k];
      BlockRecords(start, init) + [BlockRecord(blocks[|blocks| - 1], if |init| == 0 then start else "")]
  }

  /** Record k of a list of blocks describes block k. */
  lemma {:induction false} BlockRecordsAt(start: string, blocks: seq<seq<RawLine>>, k: nat)
    requires forall j :: 0 <= j < |blocks| ==> IsBlock(blocks[j])
    requires k < |blocks|
    ensures BlockRecords(start, blocks)[k] == BlockRecord(blocks[k], if k == 0 then start else "")
    decreases |blocks|
  {
    var init := blocks[..|blocks| - 1];
    assert forall j :: 0 <= j < |init| ==> init[j] == blocks[j];
    if k < |init| {
      BlockRecordsAt(start, init, k);
    }
  }

  /** One more block adds its record to the records finished so far. */
  lemma RunOverBlockStep(x: seq<RawLine>, start: string, init: seq<seq<RawLine>>, b: seq<RawLine>)
    requires forall k :: 0 <= k < |init| ==> IsBlock(init[k])
    requires IsBlock(b)
    requires Finish(Run(x)) == BlockRecords(start, init)
    requires Run(x).BeforeFirstRecord? <==> |init| == 0
    requires Run(x).BeforeFirstRecord? ==> Run(x).pending == start
    ensures forall k :: 0 <= k < |init + [b]| ==> IsBlock((init + [b])[k])
    ensures Run(x + b).Accumulating?
    ensures Finish(Run(x + b)) == BlockRecords(start, init + [b])
  {
    RunBlock(x, b);
    var blocks := init + [b];
    assert blocks[..|blocks| - 1] == init;
    var first := if |init| == 0 then start else "";
    assert Run(x + b) == Accumulating(BlockRecords(start, init), BlockRecord(b, first));
  }

  /** The records finished after a prefix without `sec` lines and a list of blocks. */
  lemma {:induction false} RunOverBlocks(pre: seq<RawLine>, blocks: seq<seq<RawLine>>)
    requires NoSecLine(pre)
    requires forall k :: 0 <= k < |blocks| ==> IsBlock(blocks[k])
    ensures Finish(Run(pre + Flatten(blocks))) == BlockRecords(AccumulateNames("", pre), blocks)
    ensures Run(pre + Flatten(blocks)).BeforeFirstRecord? <==> |blocks| == 0
    ensures Run(pre + Flatten(blocks)).BeforeFirstRecord? ==> Run(pre + Flatten(blocks)).pending == AccumulateNames("", pre)
    decreases |blocks|
  {
    if |blocks| == 0 {
      assert pre + Flatten(blocks) == [] + pre;
      RunNoSec([], pre);
    } else {
      var init := blocks[..|blocks| - 1];
      var b := blocks[|blocks| - 1];
      FlattenSnoc(pre, blocks);
      RunOverBlocks(pre, init);
      RunOverBlockStep(pre + Flatten(init), AccumulateNames("", pre), init, b);
    }
  }

  lemma FlattenSnoc(pre: seq<RawLine>, blocks: seq<seq<RawLine>>)
    requires |blocks| > 0
    requires forall k :: 0 <= k < |blocks| ==> IsBlock(blocks[k])
    ensures var init := blocks[..|blocks| - 1];
      && blocks == init + [blocks[|blocks| - 1]]
      && pre + Flatten(blocks) == (pre + Flatten(init)) + blocks[|blocks| - 1]
      && forall k :: 0 <= k < |init| ==> IsBlock(init[k])
  {
    var init := blocks[..|blocks| - 1];
    assert forall k :: 0 <= k < |init| ==> init[k] == blocks[k];
  }

  /**
   * The parser emits exactly one record per `sec` line, in input order;
   * record k carries the id of the k-th `sec` line and the user ids of the
   * lines up to the next `sec` line; the first record also collects the user
   * ids that come before the first `sec` line.
   */
  lemma SecretKeysByBlock(lines: seq<RawLine>)
    ensures var (pre, blocks) := Decompose(lines);
      && |SecretKeys(lines)| == |blocks| == CountSec(lines)
      && forall k :: 0 <= k < |blocks| ==>
           SecretKeys(lines)[k] == BlockRecord(blocks[k], if k == 0 then AccumulateNames("", pre) else "")
  {
    var (pre, blocks) := Decompose(lines);
    RunOverBlocks(pre, blocks);
    forall k | 0 <= k < |blocks|
      ensures SecretKeys(lines)[k] == BlockRecord(blocks[k], if k == 0 then AccumulateNames("", pre) else "")
    {
      BlockRecordsAt(AccumulateNames("", pre), blocks, k);
    }
  }

  /** A listing with no `sec` line gives no key, whatever `uid` lines it holds. */
  lemma NoSecNoKeys(lines: seq<RawLine>)
    requires NoSecLine(lines)
    ensures SecretKeys(lines) == []
  {
    assert [] + lines == lines;
    RunNoSec([], lines);
  }

  /** Once a `sec` line has been read, the parser is accumulating a record. */
  lemma {:induction false} RunAccumulatesAfterSec(lines: seq<RawLine>)
    ensures Run(lines).Accumulating? <==> CountSec(lines) > 0
    ensures Run(lines).Accumulating? ==> |Run(lines).done| == CountSec(lines) - 1
    decreases |lines|
  {
    if |lines| > 0 {
      RunAccumulatesAfterSec(lines[..|lines| - 1]);
    }
  }

  /**
   * Records do not mix: appending a block to a listing that already has a
   * `sec` line appends exactly that block's record, built from "" and not
   * from the previous record's name.
   */
  lemma SecretKeysAppendBlock(lines: seq<RawLine>, block: seq<RawLine>)
    requires CountSec(lines) > 0
    requires IsBlock(block)
    ensures SecretKeys(lines + block) == SecretKeys(lines) + [BlockRecord(block, "")]
  {
    RunAccumulatesAfterSec(lines);
    RunBlock(lines, block);
  }

  /** Two `sec` lines, each followed by one `uid` line, give two records with their own ids and names. */
  lemma TwoKeysStaySeparate(sec1: RawLine, uid1: RawLine, sec2: RawLine, uid2: RawLine, name1: string, name2: string)
    requires IsSecLine(sec1) && IsSecLine(sec2)
    requires UidFragment(uid1) == Some(name1) && UidFragment(uid2) == Some(name2)
    ensures SecretKeys([sec1, uid1, sec2, uid2]) == [KeyIdName(SecId(sec1), name1), KeyIdName(SecId(sec2), name2)]
  {
    UidLineIsNotSec(uid1);
    UidLineIsNotSec(uid2);
    RunSnoc([], sec1);
    assert [] + [sec1] == [sec1];
    assert Run([sec1]) == Accumulating([], KeyIdName(SecId(sec1), ""));
    RunSnoc([sec1], uid1);
    assert [sec1] + [uid1] == [sec1, uid1];
    assert Run([sec1, uid1]) == Accumulating([], KeyIdName(SecId(sec1), name1));
    RunSnoc([sec1, uid1], sec2);
    assert [sec1, uid1] + [sec2] == [sec1, uid1, sec2];
    RunSnoc([sec1, uid1, sec2], uid2);
    assert [sec1, uid1, sec2] + [uid2] == [sec1, uid1, sec2, uid2];
  }

  /** `uid` lines before the first `sec` line end up in the first record. */
  lemma UidBeforeFirstSecKept(uid0: RawLine, sec1: RawLine, name0: string)
    requires UidFragment(uid0) == Some(name0) && IsSecLine(sec1)
    ensures SecretKeys([uid0, sec1]) == [KeyIdName(SecId(sec1), name0)]
  {
    UidLineIsNotSec(uid0);
    RunSnoc([], uid0);
    assert [] + [uid0] == [uid0];
    assert Run([uid0]) == BeforeFirstRecord(name0);
    RunSnoc([uid0], sec1);
    assert [uid0] + [sec1] == [uid0, sec1];
  }

  /**
   * A `sec` line with fewer than five fields still flushes the previous
   * record and clears the current one, but sets no id: its record has the
   * empty id, not the previous record's.
   */
  lemma ShortSecLineClearsId(sec1: RawLine, uid1: RawLine, sec2: RawLine, name1: string)
    requires IsSecLine(sec1) && IsSecLine(sec2) && |Split(sec2.text, ':')| < 5
    requires UidFragment(uid1) == Some(name1)
    ensures SecretKeys([sec1, uid1, sec2]) == [KeyIdName(SecId(sec1), name1), KeyIdName("", "")]
  {
    UidLineIsNotSec(uid1);
    RunSnoc([], sec1);
    assert [] + [sec1] == [sec1];
    RunSnoc([sec1], uid1);
    assert [sec1] + [uid1] == [sec1, uid1];
    assert Run([sec1, uid1]) == Accumulating([], KeyIdName(SecId(sec1), name1));
    RunSnoc([sec1, uid1], sec2);
    assert [sec1, uid1] + [sec2] == [sec1, uid1, sec2];
  }

  /** A line that is neither a `sec` line nor a `uid` line with ten fields (undecodable lines included) changes nothing. */
  lemma IgnoredLineChangesNothing(lines: seq<RawLine>, line: RawLine)
    requires !IsSecLine(line) && UidFragment(line).None?
    ensures SecretKeys(lines + [line]) == SecretKeys(lines)
  {
    RunSnoc(lines, line);
  }

  /** The user ids, in order, that the `uid` lines with at least ten fields contribute. */
  function Fragments(lines: seq<RawLine>): seq<string>
    decreases |lines|
  {
    if |lines| == 0 then []
    else
      var before := Fragments(lines[..|lines| - 1]);
      match UidFragment(lines[|lines| - 1])
      case None => before
      case Some(fragment) => before + [fragment]
  }

  /** With no empty user id, the name is the user ids joined by ", ". */
  lemma {:induction false} NameIsJoinedFragments(lines: seq<RawLine>)
    requires forall i :: 0 <= i < |lines| && UidFragment(lines[i]).Some? ==> UidFragment(lines[i]).value != ""
    ensures AccumulateNames("", lines) == Join(Fragments(lines), ", ")
    ensures AccumulateNames("", lines) == "" <==> Fragments(lines) == []
    decreases |lines|
  {
    if |lines| > 0 {
      var init := lines[..|lines| - 1];
      assert forall i :: 0 <= i < |init| ==> init[i] == lines[i];
      NameIsJoinedFragments(init);
      match UidFragment(lines[|lines| - 1])
      case None =>
      case Some(fragment) =>
        JoinSnoc(Fragments(init), ", ", fragment);
    }
  }

  /** The separator depends on the name being empty, not on a count: an empty user id swallows the next ", ". */
  lemma EmptyFragmentDropsSeparator(uid1: RawLine, uid2: RawLine, name2: string)
    requires UidFragment(uid1) == Some("") && UidFragment(uid2) == Some(name2)
    ensures AccumulateNames("", [uid1, uid2]) == name2
    ensures Join(Fragments([uid1, uid2]), ", ") == ", " + name2
  {
    var lines := [uid1, uid2];
    assert lines[..1] == [uid1];
    assert [uid1][..0] == [];
    assert AccumulateNames("", [uid1]) == "";
    assert Fragments([uid1]) == [""];
    assert Fragments(lines) == ["", name2];
    assert Join(["", name2], ", ") == "" + ", " + Join([name2], ", ");
  }

  // ---------------------------------------------------------------------
  // Secret names (list_passwords)
  // ---------------------------------------------------------------------

  const SECRET_SUFFIX := ".gpg"

  /** One item of the recursive directory walk: a path and whether it is a regular file, or a walk error. */
  datatype WalkEntry = Entry(path: string, isFile: bool) | WalkFailed

  predicate IsSecretFile(entry: WalkEntry) {
    entry.Entry? && entry.isFile && EndsWith(entry.path, SECRET_SUFFIX)
  }

  /**
   * The name listed for a secret file: all leading copies of the vault
   * string, then all leading '/', then all leading '\\', then all trailing
   * ".gpg" are removed.
   */
  function ListedName(vault: string, path: string): string {
    TrimEndMatches(TrimStartChar(TrimStartChar(TrimStartMatches(path, vault), '/'), '\\'), SECRET_SUFFIX)
  }

  /** A listed name is a contiguous piece of the file's path and never ends in ".gpg". */
  lemma ListedNameShape(vault: string, path: string)
    ensures !EndsWith(ListedName(vault, path), SECRET_SUFFIX)
    ensures exists i :: OccursAt(path, i, ListedName(vault, path))
  {
    var a := TrimStartMatches(path, vault);
    var b := TrimStartChar(a, '/');
    var c := TrimStartChar(b, '\\');
    TrimStartMatchesSpec(path, vault);
    TrimStartCharSpec(a, '/');
    TrimStartCharSpec(b, '\\');
    TrimEndMatchesSpec(c, SECRET_SUFFIX);
    EndsWithTrans(path, a, b);
    EndsWithTrans(path, b, c);
    assert OccursAt(path, |path| - |c|, ListedName(vault, path));
  }

  /** What one walk entry contributes: the name of a secret file, nothing otherwise. */
  function EntryNames(vault: string, entry: WalkEntry): (names: seq<string>)
    ensures |names| <= 1
    ensures |names| == 1 <==> IsSecretFile(entry)
  {
    if IsSecretFile(entry) then [ListedName(vault, entry.path)] else []
  }

  /** The names `list_passwords` returns, in walk order; never more than there are entries. */
  function ListedNames(vault: string, entries: seq<WalkEntry>): (names: seq<string>)
    ensures |names| <= |entries|
    decreases |entries|
  {
    if |entries| == 0 then []
    else ListedNames(vault, entries[..|entries| - 1]) + EntryNames(vault, entries[|entries| - 1])
  }

  /** `list_passwords`: walks the vault and pushes the name of every file ending in ".gpg". */
  method ListPasswords(vault: string, entries: seq<WalkEntry>) returns (keys: seq<string>)
    ensures keys == ListedNames(vault, entries)
  {
    keys := [];
    for i := 0 to |entries|
      invariant keys == ListedNames(vault, entries[..i])
    {
      assert entries[..i + 1][..i] == entries[..i];
      var entry := entries[i];
      if entry.Entry? && entry.isFile {
        var filename := entry.path;
        if EndsWith(filename, SECRET_SUFFIX) {
          var key := TrimStartMatches(filename, vault);
          key := TrimStartChar(key, '/');
          key := TrimStartChar(key, '\\');
          key := TrimEndMatches(key, SECRET_SUFFIX);
          keys := keys + [key];
        }
      }
    }
    assert entries[..|entries|] == entries;
  }

  /** Listing follows the walk: the names of a split walk are the names of its two parts, in order. */
  lemma {:induction false} ListedNamesAppend(vault: string, first: seq<WalkEntry>, second: seq<WalkEntry>)
    ensures ListedNames(vault, first + second) == ListedNames(vault, first) + ListedNames(vault, second)
    decreases |second|
  {
    if |second| == 0 {
      assert first + second == first;
    } else {
      var init := second[..|second| - 1];
      var last := second[|second| - 1];
      ListedNamesAppend(vault, first, init);
      ListedNamesAppendStep(vault, first, init, last);
      assert second == init + [last];
    }
  }

  lemma ListedNamesAppendStep(vault: string, first: seq<WalkEntry>, init: seq<WalkEntry>, last: WalkEntry)
    requires ListedNames(vault, first + init) == ListedNames(vault, first) + ListedNames(vault, init)
    ensures ListedNames(vault, first + (init + [last])) == ListedNames(vault, first) + ListedNames(vault, init + [last])
  {
    var A, B, C := ListedNames(vault, first), ListedNames(vault, init), EntryNames(vault, last);
    calc {
      ListedNames(vault, first + (init + [last]));
      { assert first + (init + [last]) == (first + init) + [last]; }
      ListedNames(vault, (first + init) + [last]);
      { ListedNamesSnoc(vault, first + init, last); }
      (A + B) + C;
      A + (B + C);
      { ListedNamesSnoc(vault, init, last); }
      A + ListedNames(vault, init + [last]);
    }
  }

  lemma ListedNamesSnoc(vault: string, entries: seq<WalkEntry>, last: WalkEntry)
    ensures ListedNames(vault, entries + [last]) == ListedNames(vault, entries) + EntryNames(vault, last)
  {
    var all := entries + [last];
    assert all[..|all| - 1] == entries;
  }

  /** Every listed name comes from a secret file of the walk. */
  lemma {:induction false} ListedNamesSound(vault: string, entries: seq<WalkEntry>, name: string)
    requires name in ListedNames(vault, entries)
    ensures exists i :: 0 <= i < |entries| && IsSecretFile(entries[i]) && name == ListedName(vault, entries[i].path)
    decreases |entries|
  {
    var init := entries[..|entries| - 1];
    var last := entries[|entries| - 1];
    if name in ListedNames(vault, init) {
      ListedNamesSound(vault, init, name);
      var i :| 0 <= i < |init| && IsSecretFile(init[i]) && name == ListedName(vault, init[i].path);
      assert entries[i] == init[i];
    } else {
      assert IsSecretFile(last) && name == ListedName(vault, last.path);
    }
  }

  /** Every secret file of the walk is listed. */
  lemma {:induction false} ListedNamesComplete(vault: string, entries: seq<WalkEntry>, i: nat)
    requires i < |entries| && IsSecretFile(entries[i])
    ensures ListedName(vault, entries[i].path) in ListedNames(vault, entries)
    decreases |entries|
  {
    var init := entries[..|entries| - 1];
    if i < |init| {
      assert entries[i] == init[i];
      ListedNamesComplete(vault, init, i);
    }
  }

  /**
   * The same derivation with the vault prefix stripped once, as a path
   * prefix, which `trim_start_matches` does not do.
   */
  function ListedNameStripOnce(vault: string, path: string): string {
    var a := if StartsWith(path, vault) then path[|vault|..] else path;
    TrimEndMatches(TrimStartChar(TrimStartChar(a, '/'), '\\'), SECRET_SUFFIX)
  }
}
