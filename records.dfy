/** The record model shared by the reader, the share-link codec and the layout. */
module Records {

  datatype Option<+T> = None | Some(value: T)

  datatype Result<+T, +E> = Ok(value: T) | Err(error: E)

  /** One goal of a sheet, as the viewer keeps it after parsing or restoring:
      six text fields and integer canvas coordinates ((0, 0) means "not placed yet"). */
  datatype Node = Node(
    id: string,
    parentId: string,
    name: string,
    description: string,
    iconUrl: string,
    url: string,
    x: int,
    y: int)
}
