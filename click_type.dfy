/** How a click on a table row was made, for analytics. */
module ClickType {

  /** Every kind of click the analytics events name. */
  datatype ClickType = RowClicked | CmdClicked | RightClicked | MiddleClicked | ShiftClicked

  /** The modifier keys held during a click. */
  datatype ClickEvent = ClickEvent(shiftKey: bool, metaKey: bool, ctrlKey: bool)

  /** The click-handler's kind: shift first, then command or control, else a plain row click. */
  function GetClickType(e: ClickEvent): (r: ClickType)
    ensures r == RowClicked || r == CmdClicked || r == ShiftClicked
    ensures r == ShiftClicked <==> e.shiftKey
    ensures r == CmdClicked <==> !e.shiftKey && (e.metaKey || e.ctrlKey)
    ensures r == RowClicked <==> !e.shiftKey && !e.metaKey && !e.ctrlKey
  {
    if e.shiftKey then ShiftClicked
    else if e.metaKey || e.ctrlKey then CmdClicked
    else RowClicked
  }

  /** The mouse button numbers of `MouseEvent.button`: 0 main, 1 auxiliary (the wheel), 2 secondary. */
  const AuxiliaryButton: int := 1

  /** A mouse-down is a middle click when the auxiliary button is pressed. */
  function IsMiddleClick(button: int): (middle: bool)
    ensures middle ==> button != 0 && button != 2
    ensures middle <==> button == AuxiliaryButton
  {
    button == 1
  }
}
