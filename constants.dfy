/** Numeric constants that the screens share. In the Go program they are
    package-level constants spread over several files; each is cited where
    it is declared. */
module Constants {

  /** Rows of the manual-insert table and of the edit grid's status
      arrays (insert_manual_entry.go:44). */
  const MaxEntries: nat := 10

  /** Rows shown per page of search results (find_entry_screen.go:39). */
  const NumEntriesPerPage: nat := 10

  /** Sentinel stored in a numeric search field left blank
      (find_entry_screen.go:38). */
  const Invalid: int := -99

  /** Search form fields: year, month, day, description, debit, credit
      (find_entry_screen.go:37). */
  const NumSearchFields: nat := 6

  /** Cell widths of the tables (post_insert_csv_screen.go:13-15). The
      second declaration of DescriptionWidth, 30 in
      inserting_csv_screen.go:22, conflicts with this one. */
  const DateWidth: nat := 5
  const DefaultWidth: nat := 15
  const DescriptionWidth: nat := 36
}
