/** Tag-family classification from the anticollision parameters (guess_tag_type, get_tag_type). */
module TagClassifier {
  import opened NfcTypes

  /** The TAG_TYPE_* codes; their numeric values are left symbolic. */
  datatype TagType = Unknown | Type2 | MifareClassic | MifareUltralight | MifareDESFire

  /** guess_tag_type: the coarse classification when only the UID length is known. */
  function GuessTagType(uidLength: byte): (r: TagType)
    ensures r == MifareClassic <==> uidLength == 4
    ensures r == Type2 <==> uidLength != 4
  {
    if uidLength == 4 then MifareClassic else Type2
  }

  /**
   * get_tag_type: the first-match decision on UID length, ATQA and SAK.
   * The source tests an undeclared `uid`; this follows the parameter `uid_length`.
   */
  function GetTagType(uidLength: byte, atqa: uint16, sak: byte): (r: TagType)
    ensures r == MifareClassic <==>
              uidLength == 4 && ((atqa == 0x0004 && sak == 0x08) || (atqa == 0x0002 && sak == 0x18))
    ensures r == MifareUltralight <==> uidLength == 7 && atqa == 0x0044 && sak == 0x00
    ensures r == MifareDESFire <==> uidLength == 7 && atqa == 0x0344 && sak == 0x20
    ensures r != Type2
  {
    if uidLength == 4 && atqa == 0x0004 && sak == 0x08 then MifareClassic
    else if uidLength == 4 && atqa == 0x0002 && sak == 0x18 then MifareClassic
    else if uidLength == 7 && atqa == 0x0044 && sak == 0x00 then MifareUltralight
    else if uidLength == 7 && atqa == 0x0344 && sak == 0x20 then MifareDESFire
    else Unknown
  }

  /** One line of the identification table: the parameters a card family answers with. */
  datatype Row = Row(uidLength: nat, atqa: nat, sak: nat, tagType: TagType)

  /** The cards the classifier recognises, in the order get_tag_type checks them (MIFARE Classic 1k, 4k, Ultralight, DESFire). */
  const IdentificationTable: seq<Row> := [
    Row(4, 0x0004, 0x08, MifareClassic),
    Row(4, 0x0002, 0x18, MifareClassic),
    Row(7, 0x0044, 0x00, MifareUltralight),
    Row(7, 0x0344, 0x20, MifareDESFire)
  ]

  predicate Matches(row: Row, uidLength: nat, atqa: nat, sak: nat) {
    row.uidLength == uidLength && row.atqa == atqa && row.sak == sak
  }

  /** The family of the first row that matches all three parameters, Unknown when none does. */
  function FirstMatch(table: seq<Row>, uidLength: nat, atqa: nat, sak: nat): TagType
    decreases |table|
  {
    if table == [] then Unknown
    else if Matches(table[0], uidLength, atqa, sak) then table[0].tagType
    else FirstMatch(table[1..], uidLength, atqa, sak)
  }

  /** The lookup answers the family of the first matching row. */
  lemma {:induction false} FirstMatchAt(table: seq<Row>, uidLength: nat, atqa: nat, sak: nat, k: nat)
    requires k < |table| && Matches(table[k], uidLength, atqa, sak)
    requires forall j :: 0 <= j < k ==> !Matches(table[j], uidLength, atqa, sak)
    ensures FirstMatch(table, uidLength, atqa, sak) == table[k].tagType
    decreases k
  {
    if k > 0 {
      assert !Matches(table[0], uidLength, atqa, sak);
      assert forall j :: 0 <= j < k - 1 ==> table[1..][j] == table[j + 1];
      FirstMatchAt(table[1..], uidLength, atqa, sak, k - 1);
    }
  }

  /** The lookup answers Unknown when no row matches. */
  lemma {:induction false} FirstMatchNone(table: seq<Row>, uidLength: nat, atqa: nat, sak: nat)
    requires forall j :: 0 <= j < |table| ==> !Matches(table[j], uidLength, atqa, sak)
    ensures FirstMatch(table, uidLength, atqa, sak) == Unknown
    decreases |table|
  {
    if table != [] {
      assert !Matches(table[0], uidLength, atqa, sak);
      assert forall j :: 0 <= j < |table| - 1 ==> table[1..][j] == table[j + 1];
      FirstMatchNone(table[1..], uidLength, atqa, sak);
    }
  }

  /** get_tag_type agrees with a first-match lookup in the identification table, for every input. */
  lemma GetTagTypeIsTableLookup(uidLength: byte, atqa: uint16, sak: byte)
    ensures GetTagType(uidLength, atqa, sak) == FirstMatch(IdentificationTable, uidLength, atqa, sak)
  {
  }

  /** Every family the full classifier names is consistent with the coarse guess from the UID length. */
  lemma GuessAgreesWithClassification(uidLength: byte, atqa: uint16, sak: byte)
    ensures GetTagType(uidLength, atqa, sak) == MifareClassic ==> GuessTagType(uidLength) == MifareClassic
    ensures GetTagType(uidLength, atqa, sak) in {MifareUltralight, MifareDESFire} ==> GuessTagType(uidLength) == Type2
  {
  }
}
