/** The optional value used for nullable fields (a player's socket id, a round's word). */
module Options {

  datatype Option<+T> = None | Some(value: T)
}
