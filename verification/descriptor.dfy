/**
 The table descriptor: the ordered columns of a table as introspection
 reports them, with the `Null`, `Key`, `Extra` and `Default` attributes the
 entity layer reads, and the process-wide cache of descriptors by table.
 */
module Descriptor {
  import opened PhpValue

  /** The `Key` attribute: `PRI`, `UNI`, `MUL` or empty. */
  datatype KeyKind = Primary | Unique | Multiple | NoKey

  /**
   One column. `notNull` stands for `Null == 'NO'`, `autoIncrement` for
   `Extra === 'auto_increment'`.
   */
  datatype Column = Column(name: string, notNull: bool, key: KeyKind, autoIncrement: bool, default: Value)

  datatype TableDescriptor = TableDescriptor(table: string, primaryKey: string, columns: seq<Column>)

  /** Column names in declaration order (`getColumnsNames`). */
  function ColumnNames(d: TableDescriptor): (r: seq<string>)
    ensures |r| == |d.columns|
    ensures forall i :: 0 <= i < |r| ==> r[i] == d.columns[i].name
  {
    NamesOf(d.columns)
  }

  function NamesOf(cols: seq<Column>): (r: seq<string>)
    ensures |r| == |cols|
    ensures forall i :: 0 <= i < |r| ==> r[i] == cols[i].name
  {
    if |cols| == 0 then [] else [cols[0].name] + NamesOf(cols[1..])
  }

  /** `isset($descriptor['columns'][$name])`. */
  predicate HasColumn(d: TableDescriptor, name: string) {
    name in ColumnNames(d)
  }

  /** Column names are distinct and the primary key is one of them. */
  predicate Valid(d: TableDescriptor) {
    && (forall i, j :: 0 <= i < j < |d.columns| ==> d.columns[i].name != d.columns[j].name)
    && HasColumn(d, d.primaryKey)
  }

  /** The cache: table name to descriptor, shared by every entity of the process. */
  type DescriptorCache = map<string, TableDescriptor>

  /**
   The merge step of caching a descriptor: a table already present keeps its
   cached entry; otherwise the freshly introspected descriptor is added next to
   the entries of every other table. Returns the new cache and the entry used.
   */
  function CacheDescriptor(cache: DescriptorCache, table: string, introspected: TableDescriptor)
    : (r: (DescriptorCache, TableDescriptor))
    ensures table in r.0 && r.1 == r.0[table]
    ensures table in cache ==> r.0 == cache
    ensures table !in cache ==> r.1 == introspected
    ensures r.0.Keys == cache.Keys + {table}
    ensures forall t :: t in cache && t != table ==> r.0[t] == cache[t]
  {
    if table in cache then (cache, cache[table])
    else (cache[table := introspected], introspected)
  }

  /** Caching twice is caching once: the second call finds the entry and changes nothing. */
  lemma CacheIdempotent(cache: DescriptorCache, table: string, d1: TableDescriptor, d2: TableDescriptor)
    ensures CacheDescriptor(CacheDescriptor(cache, table, d1).0, table, d2) == CacheDescriptor(cache, table, d1)
  {
  }
}
