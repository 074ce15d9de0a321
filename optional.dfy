/** The Some/None datatype used for values the page may lack: a hero element,
    a link matching a selector, a pending timer. */
module Optional {

  datatype Option<+T> = None | Some(value: T)
}
