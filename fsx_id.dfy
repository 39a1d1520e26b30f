/** Node-revision IDs of the FSX back end (libsvn_fs_x/id.c). A change set
    is one signed number: revisions are >= 0, transactions are encoded
    below INVALID_CHANGE_SET, and an ID part is a (change set, item number)
    pair written as base36(number) followed by '+' or '-' and the base-36
    magnitude of the change set. */
module FsxId {
  import opened Wrappers
  import opened Radix

  /** SVN_FS_X__INVALID_CHANGE_SET, SVN_FS_X__INVALID_TXN_ID (id.h). */
  const InvalidChangeSet: int := -1
  const InvalidTxnId: int := -1
  /** SVN_INVALID_REVNUM (svn_types.h). */
  const InvalidRevnum: int := -1
  /** SVN_FS_X__ITEM_INDEX_ROOT_NODE (index.h). */
  const ItemIndexRootNode: nat := 2

  /** The ranges of apr_int64_t and apr_uint64_t. */
  const Int64Limit: int := 0x8000_0000_0000_0000
  const Uint64Limit: int := 0x1_0000_0000_0000_0000

  /** svn_fs_x__id_part_t */
  datatype IdPart = IdPart(changeSet: int, number: nat)

  /** fs_x__id_t: the node part and the node-revision part of an ID. */
  datatype Id = Id(nodeId: IdPart, noderevId: IdPart)

  /** svn_fs_node_relation_t */
  datatype NodeRelation = Unrelated | Same | CommonAncestor

  datatype IdError = MalformedNoderevId

  // ---------------------------------------------------------------------
  // Change sets

  /** svn_fs_x__is_txn */
  predicate IsTxn(changeSet: int)
  {
    changeSet < InvalidChangeSet
  }

  /** svn_fs_x__is_revision */
  predicate IsRevision(changeSet: int)
  {
    changeSet > InvalidChangeSet
  }

  /** A change set is a transaction, a revision or the invalid one, and
      never two of these. */
  lemma ChangeSetKinds(changeSet: int)
    ensures !(IsTxn(changeSet) && IsRevision(changeSet))
    ensures !IsTxn(changeSet) && !IsRevision(changeSet) <==> changeSet == InvalidChangeSet
  {
  }

  /** svn_fs_x__get_revnum */
  function GetRevnum(changeSet: int): (rev: int)
    ensures IsRevision(changeSet) ==> rev == changeSet && rev >= 0
    ensures !IsRevision(changeSet) ==> rev == InvalidRevnum
  {
    if IsRevision(changeSet) then changeSet else InvalidRevnum
  }

  /** svn_fs_x__get_txn_id */
  function GetTxnId(changeSet: int): (txn: int)
    ensures IsTxn(changeSet) ==> txn >= 0
    ensures !IsTxn(changeSet) ==> txn == InvalidTxnId
  {
    if IsTxn(changeSet) then -changeSet + InvalidChangeSet - 1 else InvalidTxnId
  }

  /** svn_fs_x__change_set_by_rev: revisions are their own change sets. */
  function ChangeSetByRev(rev: int): (changeSet: int)
    requires rev >= InvalidChangeSet
    ensures rev > InvalidRevnum <==> IsRevision(changeSet)
    ensures !IsTxn(changeSet)
  {
    rev
  }

  /** svn_fs_x__change_set_by_txn: transactions 0, 1, 2, ... become -2, -3, -4, ... */
  function ChangeSetByTxn(txn: int): (changeSet: int)
    requires txn >= InvalidChangeSet
    ensures txn >= 0 <==> IsTxn(changeSet)
    ensures txn == InvalidTxnId ==> changeSet == InvalidChangeSet
    ensures !IsRevision(changeSet)
  {
    -txn + InvalidChangeSet - 1
  }

  /** Revision numbers survive the change-set encoding, and a transaction's
      change set has no revision number. */
  lemma RevisionRoundTrip(rev: int, changeSet: int)
    requires rev >= InvalidChangeSet
    ensures GetRevnum(ChangeSetByRev(rev)) == rev
    ensures IsRevision(changeSet) ==> ChangeSetByRev(GetRevnum(changeSet)) == changeSet
    ensures IsTxn(changeSet) ==> GetRevnum(changeSet) == InvalidRevnum
  {
  }

  /** Transaction ids survive the change-set encoding, both ways. */
  lemma TxnRoundTrip(txn: int, changeSet: int)
    requires txn >= InvalidChangeSet
    ensures GetTxnId(ChangeSetByTxn(txn)) == txn
    ensures IsTxn(changeSet) ==> ChangeSetByTxn(GetTxnId(changeSet)) == changeSet
    ensures IsRevision(changeSet) ==> GetTxnId(changeSet) == InvalidTxnId
  {
  }

  // ---------------------------------------------------------------------
  // ID parts

  /** svn_fs_x__id_part_is_root: number 0 in revision 0, the node and copy
      ids every root node shares. */
  predicate IdPartIsRoot(part: IdPart)
  {
    part.changeSet == 0 && part.number == 0
  }

  /** svn_fs_x__id_part_eq */
  predicate IdPartEq(lhs: IdPart, rhs: IdPart)
  {
    lhs.changeSet == rhs.changeSet && lhs.number == rhs.number
  }

  /** svn_fs_x__id_part_used */
  predicate IdPartUsed(part: IdPart)
  {
    part.changeSet != InvalidChangeSet
  }

  /** The lexicographic order on (change set, number). */
  predicate PartLess(a: IdPart, b: IdPart)
  {
    a.changeSet < b.changeSet || (a.changeSet == b.changeSet && a.number < b.number)
  }

  /** svn_fs_x__id_part_compare: a three-way comparison by change set,
      then by number. */
  function IdPartCompare(a: IdPart, b: IdPart): (r: int)
    ensures r == 0 <==> IdPartEq(a, b)
    ensures r == 0 <==> a == b
    ensures r == -1 <==> PartLess(a, b)
    ensures r == 1 <==> PartLess(b, a)
  {
    if a.changeSet < b.changeSet then -1
    else if a.changeSet > b.changeSet then 1
    else if a.number < b.number then -1
    else if a.number == b.number then 0
    else 1
  }

  /** A root part is number 0 of revision 0: used, a revision and no
      transaction, and below every other revision part. The noderev part an
      init function builds (item 2) is not one. */
  lemma IdPartIsRootMeaning(part: IdPart, other: IdPart)
    ensures IdPartIsRoot(part) <==> part == IdPart(ChangeSetByRev(0), 0)
    ensures IdPartIsRoot(part) ==>
      IdPartUsed(part) && IsRevision(part.changeSet) && GetRevnum(part.changeSet) == 0 && GetTxnId(part.changeSet) == InvalidTxnId
    ensures IdPartIsRoot(part) && IsRevision(other.changeSet) && !IdPartIsRoot(other) ==> PartLess(part, other)
    ensures !IdPartIsRoot(IdPart(ChangeSetByRev(0), ItemIndexRootNode))
  {
  }

  /** The comparison is antisymmetric and transitive: a total order. */
  lemma IdPartCompareOrder(a: IdPart, b: IdPart, c: IdPart)
    ensures IdPartCompare(a, b) == -IdPartCompare(b, a)
    ensures IdPartCompare(a, b) <= 0 && IdPartCompare(b, c) <= 0 ==> IdPartCompare(a, c) <= 0
    ensures IdPartCompare(a, b) < 0 && IdPartCompare(b, c) < 0 ==> IdPartCompare(a, c) < 0
  {
  }

  /** svn_fs_x__id_part_reset */
  method IdPartReset() returns (part: IdPart)
    ensures !IdPartUsed(part) && part.number == 0
  {
    part := IdPart(InvalidChangeSet, 0);
  }

  /** svn_fs_x__init_txn_root: the root node of a transaction. */
  method InitTxnRoot(txn: int) returns (noderevId: IdPart)
    requires txn >= InvalidChangeSet
    ensures GetTxnId(noderevId.changeSet) == txn
    ensures txn >= 0 ==> IsTxn(noderevId.changeSet)
    ensures txn == InvalidTxnId ==> !IdPartUsed(noderevId)
    ensures noderevId.number == ItemIndexRootNode
  {
    noderevId := IdPart(ChangeSetByTxn(txn), ItemIndexRootNode);
  }

  /** svn_fs_x__init_rev_root: the root node of a revision. */
  method InitRevRoot(rev: int) returns (noderevId: IdPart)
    requires rev >= InvalidChangeSet
    ensures GetRevnum(noderevId.changeSet) == rev
    ensures rev >= 0 ==> IsRevision(noderevId.changeSet)
    ensures rev == InvalidRevnum ==> !IdPartUsed(noderevId)
    ensures noderevId.number == ItemIndexRootNode
  {
    noderevId := IdPart(ChangeSetByRev(rev), ItemIndexRootNode);
  }

  // ---------------------------------------------------------------------
  // Text form

  /** What part_unparse writes: svn__ui64tobase36 of the number, the sign,
      and svn__ui64tobase36 of the change set's magnitude. */
  function PartText(part: IdPart): string
  {
    Digits(part.number, 36)
      + if part.changeSet >= 0 then "+" + Digits(part.changeSet, 36)
        else "-" + Digits(-part.changeSet, 36)
  }

  /** The change set a sign and a magnitude stand for. */
  function Signed(sign: char, magnitude: nat): int
  {
    if sign == '-' then 0 - magnitude as int else magnitude
  }

  /** part_parse: read a base-36 number (svn__base36toui64 takes the longest
      run of 0-9a-z, an empty run reading as 0), then '+' or '-' and the
      change set's digits. The result holds the part and the text behind
      it, where the cursor stops. */
  function PartParse(data: string): Option<(IdPart, string)>
  {
    var k := DigitRun(data, 36);
    var number := Value(data[..k], 36);
    if k == |data| || (data[k] != '+' && data[k] != '-') then None
    else
      var rest := data[k + 1..];
      var j := DigitRun(rest, 36);
      Some((IdPart(Signed(data[k], Value(rest[..j], 36)), number), rest[j..]))
  }

  /** svn_fs_x__id_part_parse */
  function IdPartParse(data: string): (r: Result<IdPart, IdError>)
    ensures r.Failure? <==>
      var k := DigitRun(data, 36); k == |data| || (data[k] != '+' && data[k] != '-')
    ensures r.Failure? ==> r.error == MalformedNoderevId
  {
    match PartParse(data)
    case None => Failure(MalformedNoderevId)
    case Some((part, _)) => Success(part)
  }

  /** part_parse once the two digit runs are known. */
  lemma ParseAt(data: string, k: nat, j: nat, sign: char, number: nat, magnitude: nat)
    requires k < |data| && DigitRun(data, 36) == k && Value(data[..k], 36) == number
    requires data[k] == sign && (sign == '+' || sign == '-')
    requires DigitRun(data[k + 1..], 36) == j && Value(data[k + 1..][..j], 36) == magnitude
    ensures PartParse(data) == Some((IdPart(Signed(sign, magnitude), number), data[k + 1..][j..]))
  {
  }

  /** part_parse over any digit strings around a sign. */
  lemma ParseSigned(number: string, sign: char, magnitude: string, rest: string)
    requires AllDigits(number, 36) && AllDigits(magnitude, 36)
    requires sign == '+' || sign == '-'
    requires rest == [] || !IsDigit(rest[0], 36)
    ensures PartParse(number + ([sign] + (magnitude + rest)))
      == Some((IdPart(Signed(sign, Value(magnitude, 36)), Value(number, 36)), rest))
  {
    var tail := [sign] + (magnitude + rest);
    var data := number + tail;
    assert DigitValue('+') == 36 && DigitValue('-') == 36;
    DigitRunOfDigits(number, tail, 36);
    var k := |number|;
    assert data[..k] == number;
    assert data[k] == sign;
    assert data[k + 1..] == magnitude + rest;
    DigitRunOfDigits(magnitude, rest, 36);
    assert data[k + 1..][..|magnitude|] == magnitude;
    assert data[k + 1..][|magnitude|..] == rest;
    ParseAt(data, k, |magnitude|, sign, Value(number, 36), Value(magnitude, 36));
  }

  /** Parsing undoes unparsing, whatever follows that is not a base-36
      digit (a NUL, a '.', the end of the string). */
  lemma ParseUnparse(part: IdPart, rest: string)
    requires rest == [] || !IsDigit(rest[0], 36)
    ensures PartParse(PartText(part) + rest) == Some((part, rest))
  {
    var sign := if part.changeSet >= 0 then '+' else '-';
    var magnitude: nat := if part.changeSet >= 0 then part.changeSet else -part.changeSet;
    assert PartText(part) + rest == Digits(part.number, 36) + ([sign] + (Digits(magnitude, 36) + rest));
    ParseSigned(Digits(part.number, 36), sign, Digits(magnitude, 36), rest);
    ValueOfDigits(part.number, 36);
    ValueOfDigits(magnitude, 36);
  }

  lemma IdPartParseUnparse(part: IdPart)
    ensures IdPartParse(PartText(part)) == Success(part)
  {
    ParseUnparse(part, []);
    assert PartText(part) + [] == PartText(part);
  }

  /** The text of a part is unique to it. */
  lemma PartTextInjective(a: IdPart, b: IdPart)
    requires PartText(a) == PartText(b)
    ensures a == b
  {
    IdPartParseUnparse(a);
    IdPartParseUnparse(b);
  }

  /** Parts whose number is an apr_uint64_t and whose change set is an
      apr_int64_t other than INT64_MIN (whose negation overflows). */
  predicate PartInRange(part: IdPart)
  {
    part.number < Uint64Limit && -Int64Limit < part.changeSet < Int64Limit
  }

  lemma Pow36Thirteen()
    ensures Pow(36, 13) == 170581728179578208256
  {
    assert Pow(36, 1) == 36;
    assert Pow(36, 2) == 1296;
    assert Pow(36, 3) == 46656;
    assert Pow(36, 4) == 1679616;
    assert Pow(36, 5) == 60466176;
    assert Pow(36, 6) == 2176782336;
    assert Pow(36, 7) == 78364164096;
    assert Pow(36, 8) == 2821109907456;
    assert Pow(36, 9) == 101559956668416;
    assert Pow(36, 10) == 3656158440062976;
    assert Pow(36, 11) == 131621703842267136;
    assert Pow(36, 12) == 4738381338321616896;
  }

  /** A 64-bit number has at most 13 base-36 digits, so a part's text is at
      most 27 characters and fits the 2 * SVN_INT64_BUFFER_SIZE + 1 buffer. */
  lemma PartTextLength(part: IdPart)
    requires PartInRange(part)
    ensures |PartText(part)| <= 27
  {
    Pow36Thirteen();
    DigitsLength(part.number, 36, 13);
    DigitsLength(if part.changeSet >= 0 then part.changeSet else -part.changeSet, 36, 13);
  }

  /** Copy text into buf at pos, as svn__ui64tobase36 copies its digits; the
      NUL terminator it writes after them is not modelled. */
  method WriteText(buf: array<char>, pos: nat, text: string) returns (next: nat)
    requires pos + |text| <= buf.Length
    modifies buf
    ensures next == pos + |text|
    ensures buf[pos..next] == text
    ensures forall i :: 0 <= i < buf.Length && !(pos <= i < next) ==> buf[i] == old(buf[i])
  {
    var i := 0;
    while i < |text|
      invariant 0 <= i <= |text|
      invariant buf[pos..pos + i] == text[..i]
      invariant forall j :: 0 <= j < buf.Length && !(pos <= j < pos + i) ==> buf[j] == old(buf[j])
    {
      buf[pos + i] := text[i];
      i := i + 1;
    }
    next := pos + i;
  }

  /** part_unparse: write the part's text at pos, returning the position behind it. */
  method PartUnparse(buf: array<char>, pos: nat, part: IdPart) returns (next: nat)
    requires pos + |PartText(part)| <= buf.Length
    modifies buf
    ensures next == pos + |PartText(part)|
    ensures buf[pos..next] == PartText(part)
    ensures forall i :: 0 <= i < buf.Length && !(pos <= i < next) ==> buf[i] == old(buf[i])
  {
    var sign := if part.changeSet >= 0 then '+' else '-';
    var magnitude: nat := if part.changeSet >= 0 then part.changeSet else -part.changeSet;
    var number := Digits(part.number, 36);
    var digits := Digits(magnitude, 36);
    assert PartText(part) == number + [sign] + digits;
    var p1 := WriteText(buf, pos, number);
    ghost var afterNumber := buf[..];
    var p2 := WriteText(buf, p1, [sign]);
    ghost var afterSign := buf[..];
    next := WriteText(buf, p2, digits);
    assert buf[pos..p1] == afterSign[pos..p1] == afterNumber[pos..p1] == number;
    assert buf[p1..p2] == afterSign[p1..p2] == [sign];
    assert buf[pos..next] == buf[pos..p1] + buf[p1..p2] + buf[p2..next];
  }

  /** svn_fs_x__id_part_unparse */
  method IdPartUnparse(part: IdPart) returns (text: string)
    requires PartInRange(part)
    ensures text == PartText(part)
    ensures IdPartParse(text) == Success(part)
  {
    PartTextLength(part);
    var buf := new char[43];
    var p := PartUnparse(buf, 0, part);
    text := buf[..p];
    IdPartParseUnparse(part);
  }

  // ---------------------------------------------------------------------
  // Whole IDs

  /** What id_unparse writes: node part, '.', node-revision part. */
  function IdText(id: Id): string
  {
    PartText(id.nodeId) + "." + PartText(id.noderevId)
  }

  /** Both parts can be read back from an ID's text: the node part up to
      the '.', the node-revision part after it. */
  lemma IdTextParts(id: Id)
    ensures PartParse(IdText(id)) == Some((id.nodeId, "." + PartText(id.noderevId)))
    ensures IdPartParse(PartText(id.noderevId)) == Success(id.noderevId)
  {
    assert DigitValue('.') == 36;
    ParseUnparse(id.nodeId, "." + PartText(id.noderevId));
    assert IdText(id) == PartText(id.nodeId) + ("." + PartText(id.noderevId));
    IdPartParseUnparse(id.noderevId);
  }

  /** id_unparse, over its 4 * SVN_INT64_BUFFER_SIZE + 4 buffer. */
  method IdUnparse(id: Id) returns (text: string)
    requires PartInRange(id.nodeId) && PartInRange(id.noderevId)
    ensures text == IdText(id)
  {
    PartTextLength(id.nodeId);
    PartTextLength(id.noderevId);
    var buf := new char[88];
    var p1 := PartUnparse(buf, 0, id.nodeId);
    buf[p1] := '.';
    ghost var afterDot := buf[..];
    var p2 := PartUnparse(buf, p1 + 1, id.noderevId);
    text := buf[..p2];
    assert buf[..p1] == afterDot[..p1] == PartText(id.nodeId);
    assert buf[p1] == '.';
    assert text == buf[..p1] + [buf[p1]] + buf[p1 + 1..p2];
  }

  /** id_compare */
  function IdCompare(a: Id, b: Id): (r: NodeRelation)
    ensures r == Same <==> IdPartEq(a.noderevId, b.noderevId)
    ensures r == CommonAncestor <==>
      && !IdPartEq(a.noderevId, b.noderevId)
      && !(IsTxn(a.noderevId.changeSet) && IsTxn(b.noderevId.changeSet) && a.noderevId.changeSet != b.noderevId.changeSet)
      && IdPartEq(a.nodeId, b.nodeId)
  {
    if IdPartEq(a.noderevId, b.noderevId) then Same
    else if IsTxn(a.noderevId.changeSet) && IsTxn(b.noderevId.changeSet)
         && a.noderevId.changeSet != b.noderevId.changeSet then Unrelated
    else if IdPartEq(a.nodeId, b.nodeId) then CommonAncestor
    else Unrelated
  }

  /** The relation is symmetric and every ID is the same as itself; nodes
      of two different transactions are never related. */
  lemma IdCompareProperties(a: Id, b: Id)
    ensures IdCompare(a, b) == IdCompare(b, a)
    ensures IdCompare(a, a) == Same
    ensures (IsTxn(a.noderevId.changeSet) && IsTxn(b.noderevId.changeSet)
             && a.noderevId.changeSet != b.noderevId.changeSet) ==> IdCompare(a, b) == Unrelated
  {
  }

  /** svn_fs_x__id_create: no ID for an unused node-revision part. */
  function IdCreate(nodeId: IdPart, noderevId: IdPart): (r: Option<Id>)
    ensures r.None? <==> !IdPartUsed(noderevId)
    ensures r.Some? ==> r.value.nodeId == nodeId && r.value.noderevId == noderevId
  {
    if !IdPartUsed(noderevId) then None else Some(Id(nodeId, noderevId))
  }

  /** A reset part never makes an ID; a transaction or revision root does. */
  lemma CreateFromResetOrRoot(txn: int, rev: int, nodeId: IdPart)
    requires txn >= 0 && rev >= 0
    ensures IdCreate(nodeId, IdPart(InvalidChangeSet, 0)).None?
    ensures IdCreate(nodeId, IdPart(ChangeSetByTxn(txn), ItemIndexRootNode)).Some?
    ensures IdCreate(nodeId, IdPart(ChangeSetByRev(rev), ItemIndexRootNode)).Some?
  {
  }
}
