/** Field identifiers of transaction parameters and their 16-bit codes. */
module FieldIds {
  import opened Bytes

  datatype FieldId =
    | Name | Login | Password | UserId | IconId | UserAccess | UserFlags | Options
    | ChatSubject | Version | BannerId | ServerName | Data | NewsCategory | NewsArticle
    | NewsArticleId | NewsDataFlavor | NewsTitle | NewsPoster | NewsDate | NewsPrevId
    | NewsNextId | NewsArticleData | NewsArticleFlags | NewsParentId | NewsFirstChildId
    | NewsPath | FileName | UserNameWithInfo | AutoResponse
    | Other(code: u16)

  function FieldOf(v: u16): FieldId {
    match v
    case 101 => Data
    case 102 => Name
    case 103 => UserId
    case 104 => IconId
    case 105 => Login
    case 106 => Password
    case 110 => UserAccess
    case 112 => UserFlags
    case 113 => Options
    case 115 => ChatSubject
    case 160 => Version
    case 161 => BannerId
    case 162 => ServerName
    case 215 => AutoResponse
    case 323 => NewsCategory
    case 321 => NewsArticle
    case 326 => NewsArticleId
    case 327 => NewsDataFlavor
    case 328 => NewsTitle
    case 329 => NewsPoster
    case 330 => NewsDate
    case 331 => NewsPrevId
    case 332 => NewsNextId
    case 333 => NewsArticleData
    case 334 => NewsArticleFlags
    case 335 => NewsParentId
    case 336 => NewsFirstChildId
    case 325 => NewsPath
    case 200 => FileName
    case 300 => UserNameWithInfo
    case other => Other(other)
  }

  function CodeOf(f: FieldId): u16 {
    match f
    case Name => 102
    case Login => 105
    case Password => 106
    case UserId => 103
    case IconId => 104
    case UserAccess => 110
    case UserFlags => 112
    case Options => 113
    case ChatSubject => 115
    case Version => 160
    case BannerId => 161
    case ServerName => 162
    case Data => 101
    case AutoResponse => 215
    case NewsCategory => 323
    case NewsArticle => 321
    case NewsArticleId => 326
    case NewsDataFlavor => 327
    case NewsTitle => 328
    case NewsPoster => 329
    case NewsDate => 330
    case NewsPrevId => 331
    case NewsNextId => 332
    case NewsArticleData => 333
    case NewsArticleFlags => 334
    case NewsParentId => 335
    case NewsFirstChildId => 336
    case NewsPath => 325
    case FileName => 200
    case UserNameWithInfo => 300
    case Other(v) => v
  }

  /** A field id is canonical when no named variant stands for its code. */
  predicate Canonical(f: FieldId) {
    f.Other? ==> FieldOf(f.code).Other?
  }

  /** `FieldOf` is a bijection from codes to canonical ids, and `CodeOf` its inverse. */
  lemma CodeRoundTrip(v: u16)
    ensures CodeOf(FieldOf(v)) == v
    ensures Canonical(FieldOf(v))
  {
  }

  lemma FieldRoundTrip(f: FieldId)
    ensures FieldOf(CodeOf(f)) == f <==> Canonical(f)
  {
  }

  /** The codes of the named fields. */
  lemma NamedCodes(f: FieldId)
    ensures (f.Data? ==> CodeOf(f) == 101) && (f.Name? ==> CodeOf(f) == 102)
    ensures (f.UserId? ==> CodeOf(f) == 103) && (f.IconId? ==> CodeOf(f) == 104)
    ensures (f.Login? ==> CodeOf(f) == 105) && (f.Password? ==> CodeOf(f) == 106)
    ensures (f.UserAccess? ==> CodeOf(f) == 110) && (f.UserFlags? ==> CodeOf(f) == 112)
    ensures (f.Options? ==> CodeOf(f) == 113) && (f.ChatSubject? ==> CodeOf(f) == 115)
    ensures (f.Version? ==> CodeOf(f) == 160) && (f.BannerId? ==> CodeOf(f) == 161)
    ensures (f.ServerName? ==> CodeOf(f) == 162) && (f.FileName? ==> CodeOf(f) == 200)
    ensures (f.AutoResponse? ==> CodeOf(f) == 215) && (f.UserNameWithInfo? ==> CodeOf(f) == 300)
    ensures (f.NewsArticle? ==> CodeOf(f) == 321) && (f.NewsCategory? ==> CodeOf(f) == 323)
    ensures (f.NewsPath? ==> CodeOf(f) == 325) && (f.NewsArticleId? ==> CodeOf(f) == 326)
    ensures (f.NewsDataFlavor? ==> CodeOf(f) == 327) && (f.NewsTitle? ==> CodeOf(f) == 328)
    ensures (f.NewsPoster? ==> CodeOf(f) == 329) && (f.NewsDate? ==> CodeOf(f) == 330)
    ensures (f.NewsPrevId? ==> CodeOf(f) == 331) && (f.NewsNextId? ==> CodeOf(f) == 332)
    ensures (f.NewsArticleData? ==> CodeOf(f) == 333) && (f.NewsArticleFlags? ==> CodeOf(f) == 334)
    ensures (f.NewsParentId? ==> CodeOf(f) == 335) && (f.NewsFirstChildId? ==> CodeOf(f) == 336)
  {
  }
}
