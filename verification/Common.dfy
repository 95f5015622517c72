/** Vocabulary shared by the modules. */
module Common {

  datatype Option<+T> = None | Some(value: T)

  datatype Pair<+A, +B> = Pair(fst: A, snd: B)
}
