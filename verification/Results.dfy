/** The results that file and volume operations return (FRESULT). */
module Results {
  datatype Status = Ok | IntErr | Denied | NoFile | NotEnoughCore | Locked | TooManyOpenFiles
}
