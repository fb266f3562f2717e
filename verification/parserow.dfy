/** `parse_row` from 10_fat_pointers_dispatch: one table row of text objects
    becomes a member record when it has exactly six cells. */
module MemberRows {
  import opened TextObjects

  datatype MemberInfo = MemberInfo(firstName: string, surname: string, email: string, mobile: string)

  /** `Ok(MemberInfo)`, or the error "a row should have exactly 6 text
      fields", which reports how many it found. */
  datatype RowResult = Parsed(info: MemberInfo) | WrongCellCount(found: nat)

  /** `titleCase` stands for `heck::to_title_case`, applied to the surname. */
  function ParseRow(row: seq<TextObject>, titleCase: string -> string): (r: RowResult)
    ensures r.Parsed? <==> |row| == 6
    ensures r.Parsed? ==> r.info.surname == titleCase(row[0].text)
    ensures r.Parsed? ==> r.info.firstName == row[1].text
    ensures r.Parsed? ==> r.info.email == row[2].text && r.info.mobile == row[3].text
    ensures r.WrongCellCount? ==> r.found == |row|
  {
    if |row| == 6 then
      Parsed(MemberInfo(row[1].text, titleCase(row[0].text), row[2].text, row[3].text))
    else
      WrongCellCount(|row|)
  }
}
