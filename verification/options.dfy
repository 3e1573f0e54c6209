/** The optional value the script expresses with `None`: a cell with no
    value, a basename the pattern does not match, a plan that is never built. */
module Options {

  datatype Option<+T> = None | Some(value: T)
}
