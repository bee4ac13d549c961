/** What the parser builds: expressions and statements. */
module Ast {
  import opened Options

  datatype LiteralKind = Integer | Float | String | Bool

  datatype Expr =
    | Literal(kind: LiteralKind, value: string)
    | ColumnRef(table: string, column: string)
    | Binary(op: string, left: Expr, right: Expr)
    | Unary(op: string, operand: Expr)

  datatype OrderByClause = OrderByClause(column: string, ascending: bool)

  datatype Assignment = Assignment(column: string, value: Expr)

  datatype SelectStatement = SelectStatement(
    columns: seq<string>, table: string, where_: Option<Expr>, orderBy: seq<OrderByClause>, limit: Option<int>)

  datatype InsertStatement = InsertStatement(table: string, columns: seq<string>, values: seq<Expr>)

  datatype UpdateStatement = UpdateStatement(table: string, assignments: seq<Assignment>, where_: Option<Expr>)

  datatype DeleteStatement = DeleteStatement(table: string, where_: Option<Expr>)

  datatype ColumnDef = ColumnDef(name: string, typeName: string, primaryKey: bool, notNull: bool)

  datatype Statement =
    | SelectStmt(select: SelectStatement)
    | InsertStmt(insert: InsertStatement)
    | UpdateStmt(update: UpdateStatement)
    | DeleteStmt(delete: DeleteStatement)
    | CreateTable(table: string, columns: seq<ColumnDef>)
    | DropTable(table: string)
}
