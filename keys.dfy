/** One key press as the terminal reports it: the key's code, and for a
    character key whether Control was held. No other modifier matters. */
module Keys {

  datatype Key =
    | Char(c: char, ctrl: bool)
    | Left
    | Right
    | Up
    | Down
    | Enter
    | Backspace
    | Esc
    | Other

}
