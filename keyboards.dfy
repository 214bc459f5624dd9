/** Keyboards as plain data: rows of (label, callback token) buttons. */
module Keyboards {

  datatype Button = Button(caption: string, token: string)

  type Keyboard = seq<seq<Button>>

  /** All buttons, row after row. */
  function Flatten(kb: Keyboard): seq<Button>
    decreases |kb|
  {
    if |kb| == 0 then [] else Flatten(kb[..|kb| - 1]) + kb[|kb| - 1]
  }

  /** Some row of the keyboard holds the button. */
  predicate Offers(kb: Keyboard, b: Button) {
    exists i :: 0 <= i < |kb| && b in kb[i]
  }
}
