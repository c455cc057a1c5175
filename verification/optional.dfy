/** The usual Some/None wrapper, used where the page's code looks something up
    and may find nothing (a missing DOM element, an index past the end). */
module Optional {

  datatype Option<+T> = None | Some(value: T)
}
