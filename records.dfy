/** The JSON records the program fetches, reduced to the fields the grouping and search read. */
module Records {

  /**
   * One record of a collection. Users use `username` and `id`; posts use `id` and
   * `userId`; todos use `userId` and `completed`. `text` stands for `str(record)`,
   * the Python rendering that keyword search scans.
   */
  datatype Record = Record(id: int, userId: int, completed: bool, username: string, text: string)
}
