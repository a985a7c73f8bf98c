/** The databases whose SQL differs in the statements modelled. */
module Dialects {
  datatype Dialect = MySql | PostgreSql | Sqlite
}
