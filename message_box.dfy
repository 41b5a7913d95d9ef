/** `PlayerMessageBoxServiceWin::showMessageBox`: the abstract button set is turned
    into Win32 `MessageBox` style flags, the dialog is shown, and the Win32 result code
    is turned back into one of four abstract results. */
module MessageBoxServiceWin {

  /** The caller's `buttonsType`. Values other than the three multi-button ones
      (including integers no constant names) all behave like `BUTTONS_OK`. */
  datatype ButtonsType = ButtonsOk | ButtonsOkCancel | ButtonsYesNo | ButtonsYesNoCancel | ButtonsOther(code: int)

  /** The abstract results `BUTTON_OK`, `BUTTON_CANCEL`, `BUTTON_YES`, `BUTTON_NO`. */
  datatype ButtonResult = ButtonOk | ButtonCancel | ButtonYes | ButtonNo

  /** The Win32 style flags `showMessageBox` can set. */
  datatype StyleFlag = ApplModal | MbOk | MbOkCancel | MbYesNo | MbYesNoCancel | IconQuestion | IconInformation

  // Win32 dialog result codes; 0 is what `MessageBoxW` returns when it fails.
  const IDOK: int := 1
  const IDCANCEL: int := 2
  const IDYES: int := 6
  const IDNO: int := 7

  predicate IsButtonGroup(f: StyleFlag)
  {
    f == MbOk || f == MbOkCancel || f == MbYesNo || f == MbYesNoCancel
  }

  predicate IsIcon(f: StyleFlag)
  {
    f == IconQuestion || f == IconInformation
  }

  /** The style word: application-modal, plus one button group and one icon. */
  function StyleFlags(b: ButtonsType): (r: set<StyleFlag>)
    ensures ApplModal in r
    ensures exists g :: g in r && IsButtonGroup(g) && forall f :: f in r && IsButtonGroup(f) ==> f == g
    ensures exists i :: i in r && IsIcon(i) && forall f :: f in r && IsIcon(f) ==> f == i
    ensures IconQuestion in r <==> b == ButtonsOkCancel || b == ButtonsYesNo || b == ButtonsYesNoCancel
    ensures IconInformation in r <==> IconQuestion !in r
  {
    match b
    case ButtonsOkCancel => {ApplModal, MbOkCancel, IconQuestion}
    case ButtonsYesNo => {ApplModal, MbYesNo, IconQuestion}
    case ButtonsYesNoCancel => {ApplModal, MbYesNoCancel, IconQuestion}
    case _ => {ApplModal, MbOk, IconInformation}
  }

  /** The buttons the dialog draws for a style word, as abstract results. */
  function ShownButtons(flags: set<StyleFlag>): set<ButtonResult>
  {
    (if MbOk in flags then {ButtonOk} else {}) +
    (if MbOkCancel in flags then {ButtonOk, ButtonCancel} else {}) +
    (if MbYesNo in flags then {ButtonYes, ButtonNo} else {}) +
    (if MbYesNoCancel in flags then {ButtonYes, ButtonNo, ButtonCancel} else {})
  }

  /** The buttons a caller asking for `b` means to offer. */
  function Offered(b: ButtonsType): (r: set<ButtonResult>)
    ensures r != {}
  {
    match b
    case ButtonsOkCancel => {ButtonOk, ButtonCancel}
    case ButtonsYesNo => {ButtonYes, ButtonNo}
    case ButtonsYesNoCancel => {ButtonYes, ButtonNo, ButtonCancel}
    case _ => {ButtonOk}
  }

  /** The style word draws exactly the buttons the caller asked for. */
  lemma StyleShowsOffered(b: ButtonsType)
    ensures ShownButtons(StyleFlags(b)) == Offered(b)
  {
  }

  /** The result switch: Cancel, Yes and No are recognised; every other code, IDOK and
      the failure code 0 included, reads as OK. */
  function ResultOf(code: int): (r: ButtonResult)
    ensures code == IDCANCEL <==> r == ButtonCancel
    ensures code == IDYES <==> r == ButtonYes
    ensures code == IDNO <==> r == ButtonNo
    ensures r == ButtonOk <==> code != IDCANCEL && code != IDYES && code != IDNO
  {
    if code == IDCANCEL then ButtonCancel
    else if code == IDYES then ButtonYes
    else if code == IDNO then ButtonNo
    else ButtonOk
  }

  /** The Win32 code the dialog reports for a pressed button. */
  function NativeCode(r: ButtonResult): (code: int)
    ensures code > 0
  {
    match r
    case ButtonOk => IDOK
    case ButtonCancel => IDCANCEL
    case ButtonYes => IDYES
    case ButtonNo => IDNO
  }

  /** Every abstract result survives the trip through its native code, so a press of
      any offered button is reported as that button. */
  lemma ResultRoundTrip(r: ButtonResult)
    ensures ResultOf(NativeCode(r)) == r
  {
  }

  /** `showMessageBox` with the dialog as a parameter: it receives the title, the
      message and the style word, and answers with a Win32 result code. Whatever it
      answers, the result is one of the four abstract results: each button's code comes
      back as that button, whatever style was asked for, and a failed dialog (code 0)
      reads as OK. */
  function ShowMessageBox(title: string, message: string, buttons: ButtonsType,
                          dialog: (string, string, set<StyleFlag>) -> int): (r: ButtonResult)
    ensures forall b :: dialog(title, message, StyleFlags(buttons)) == NativeCode(b) ==> r == b
    ensures dialog(title, message, StyleFlags(buttons)) == 0 ==> r == ButtonOk
    ensures r != ButtonOk ==> dialog(title, message, StyleFlags(buttons)) == NativeCode(r)
  {
    ResultOf(dialog(title, message, StyleFlags(buttons)))
  }
}
