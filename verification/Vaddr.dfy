/** Pages and page numbers (include/threads/vaddr.h). */
module Vaddr {
  const PGSIZE: nat := 4096

  function PgNo(va: nat): nat { va / PGSIZE }

  function PgOfs(va: nat): nat { va % PGSIZE }
}
