/**
 * The closed enumeration of board names of `src/article.rs` and its string table: each board
 * has one name on the site, names parse back to their board, and any other string is not a
 * board name.
 */
module Boards {
  import opened Wrappers

  /** The boards the crawler knows, in declaration order, with `Unknown` last. */
  datatype BoardName =
       AllTogether
    | BankService
    | Baseball
    | BasketballTW
    | Beauty
    | BeautySalon
    | Biker
    | BoyGirl
    | Brand
    | BuyTogether
    | CChat
    | Car
    | CarShop
    | Cat
    | ChinaDrama
    | CookClub
    | CreditCard
    | DcSale
    | DmmGames
    | DramaTicket
    | Dslr
    | EAppliance
    | EShopping
    | Examination
    | FastFood
    | FateGo
    | Finance
    | Food
    | ForSale
    | GameSale
    | Gay
    | Gbf
    | GetMarry
    | Give
    | Gossiping
    | HardwareSale
    | HatePolitics
    | Hbl
    | Headphone
    | Hearthstone
    | HelpBuy
    | HomeSale
    | HyperMall
    | Insurance
    | IOs
    | Iu
    | JapanTravel
    | JapanAvGirls
    | JapanDrama
    | Joke
    | Kaohsiung
    | KeyMouPad
    | KoreaDrama
    | KoreaStar
    | KoreanPop
    | Lakers
    | Lesbian
    | LifeIsMoney
    | LoL
    | MacShop
    | MakeUp
    | Marriage
    | Marvel
    | MayDay
    | Medstudent
    | Military
    | Mlb
    | MobileComm
    | MobileGame
    | MobilePay
    | MobileSales
    | Movie
    | MuscleBeach
    | NbShopping
    | Nba
    | NbaFilm
    | Nogizaka46
    | NSwitch
    | OnePiece
    | PalmarDrama
    | PartTime
    | PathOfExile
    | PcShopping
    | PlayStation
    | PokeMon
    | PokemonGO
    | PuzzleDragon
    | Salary
    | Sex
    | SoftJob
    | SportLottery
    | Steam
    | Stock
    | StupidClown
    | TaichungBun
    | Tainan
    | TaiwanDrama
    | TechJob
    | ToS
    | TwEntertain
    | Twice
    | TypeMoon
    | Wanted
    | Watch
    | WomenTalk
    | Wow
    | Zastrology
    | EASeries
    | Unknown

  /** The board's name on the site: the variant's `serialize` string, or the variant name
      when it has none (`Display` and `EnumString` as derived by strum). */
  function Serialize(b: BoardName): (r: string)
    ensures 2 <= |r| <= 12
  {
    match b
    case AllTogether => "AllTogether"
    case BankService => "Bank_Service"
    case Baseball => "Baseball"
    case BasketballTW => "basketballTW"
    case Beauty => "Beauty"
    case BeautySalon => "BeautySalon"
    case Biker => "biker"
    case BoyGirl => "Boy-Girl"
    case Brand => "Brand"
    case BuyTogether => "BuyTogether"
    case CChat => "C_Chat"
    case Car => "car"
    case CarShop => "CarShop"
    case Cat => "cat"
    case ChinaDrama => "China-Drama"
    case CookClub => "cookclub"
    case CreditCard => "creditcard"
    case DcSale => "DC_SALE"
    case DmmGames => "DMM_GAMES"
    case DramaTicket => "Drama-Ticket"
    case Dslr => "DSLR"
    case EAppliance => "E-appliance"
    case EShopping => "e-shopping"
    case Examination => "Examination"
    case FastFood => "fastfood"
    case FateGo => "FATE_GO"
    case Finance => "Finance"
    case Food => "Food"
    case ForSale => "forsale"
    case GameSale => "Gamesale"
    case Gay => "gay"
    case Gbf => "GBF"
    case GetMarry => "GetMarry"
    case Give => "give"
    case Gossiping => "Gossiping"
    case HardwareSale => "HardwareSale"
    case HatePolitics => "HatePolitics"
    case Hbl => "HBL"
    case Headphone => "Headphone"
    case Hearthstone => "Hearthstone"
    case HelpBuy => "HelpBuy"
    case HomeSale => "home-sale"
    case HyperMall => "hypermall"
    case Insurance => "Insurance"
    case IOs => "iOS"
    case Iu => "IU"
    case JapanTravel => "Japan_Travel"
    case JapanAvGirls => "japanavgirls"
    case JapanDrama => "Japandrama"
    case Joke => "joke"
    case Kaohsiung => "Kaohsiung"
    case KeyMouPad => "Key_Mou_Pad"
    case KoreaDrama => "KoreaDrama"
    case KoreaStar => "KoreaStar"
    case KoreanPop => "KoreanPop"
    case Lakers => "Lakers"
    case Lesbian => "lesbian"
    case LifeIsMoney => "Lifeismoney"
    case LoL => "LoL"
    case MacShop => "MacShop"
    case MakeUp => "MakeUp"
    case Marriage => "marriage"
    case Marvel => "marvel"
    case MayDay => "MayDay"
    case Medstudent => "medstudent"
    case Military => "Military"
    case Mlb => "MLB"
    case MobileComm => "MobileComm"
    case MobileGame => "Mobile-game"
    case MobilePay => "MobilePay"
    case MobileSales => "mobilesales"
    case Movie => "movie"
    case MuscleBeach => "MuscleBeach"
    case NbShopping => "nb-shopping"
    case Nba => "NBA"
    case NbaFilm => "NBA_Film"
    case Nogizaka46 => "Nogizaka46"
    case NSwitch => "NSwitch"
    case OnePiece => "ONE_PIECE"
    case PalmarDrama => "Palmar_Drama"
    case PartTime => "part-time"
    case PathOfExile => "PathofExile"
    case PcShopping => "PC_Shopping"
    case PlayStation => "PlayStation"
    case PokeMon => "PokeMon"
    case PokemonGO => "PokemonGO"
    case PuzzleDragon => "PuzzleDragon"
    case Salary => "Salary"
    case Sex => "sex"
    case SoftJob => "Soft_Job"
    case SportLottery => "SportLottery"
    case Steam => "Steam"
    case Stock => "Stock"
    case StupidClown => "StupidClown"
    case TaichungBun => "TaichungBun"
    case Tainan => "Tainan"
    case TaiwanDrama => "TaiwanDrama"
    case TechJob => "Tech_Job"
    case ToS => "ToS"
    case TwEntertain => "TW_Entertain"
    case Twice => "TWICE"
    case TypeMoon => "TypeMoon"
    case Wanted => "Wanted"
    case Watch => "watch"
    case WomenTalk => "WomenTalk"
    case Wow => "WOW"
    case Zastrology => "Zastrology"
    case EASeries => "EAseries"
    case Unknown => "Unknown"
  }

  /** The only variant whose name can equal `s`: the table indexed by the name's length and its
      first, second and last characters, which tell the names apart. It has no counterpart in
      the source: it is here only so that the verifier can see that no two boards share a name. */
  function CandidateFor(s: string): BoardName {
    if |s| < 2 then Unknown else
    var first, second, last := s[0], s[1], s[|s| - 1];
    match |s|
    case 2 =>
      if first == 'I' && second == 'U' && last == 'U' then Iu else
      Unknown
    case 3 =>
      if first == 'c' && second == 'a' && last == 'r' then Car else
      if first == 'c' && second == 'a' && last == 't' then Cat else
      if first == 'g' && second == 'a' && last == 'y' then Gay else
      if first == 'G' && second == 'B' && last == 'F' then Gbf else
      if first == 'H' && second == 'B' && last == 'L' then Hbl else
      if first == 'i' && second == 'O' && last == 'S' then IOs else
      if first == 'L' && second == 'o' && last == 'L' then LoL else
      if first == 'M' && second == 'L' && last == 'B' then Mlb else
      if first == 'N' && second == 'B' && last == 'A' then Nba else
      if first == 's' && second == 'e' && last == 'x' then Sex else
      if first == 'T' && second == 'o' && last == 'S' then ToS else
      if first == 'W' && second == 'O' && last == 'W' then Wow else
      Unknown
    case 4 =>
      if first == 'D' && second == 'S' && last == 'R' then Dslr else
      if first == 'F' && second == 'o' && last == 'd' then Food else
      if first == 'g' && second == 'i' && last == 'e' then Give else
      if first == 'j' && second == 'o' && last == 'e' then Joke else
      Unknown
    case 5 =>
      if first == 'b' && second == 'i' && last == 'r' then Biker else
      if first == 'B' && second == 'r' && last == 'd' then Brand else
      if first == 'm' && second == 'o' && last == 'e' then Movie else
      if first == 'S' && second == 't' && last == 'm' then Steam else
      if first == 'S' && second == 't' && last == 'k' then Stock else
      if first == 'T' && second == 'W' && last == 'E' then Twice else
      if first == 'w' && second == 'a' && last == 'h' then Watch else
      Unknown
    case 6 =>
      if first == 'B' && second == 'e' && last == 'y' then Beauty else
      if first == 'C' && second == '_' && last == 't' then CChat else
      if first == 'L' && second == 'a' && last == 's' then Lakers else
      if first == 'M' && second == 'a' && last == 'p' then MakeUp else
      if first == 'm' && second == 'a' && last == 'l' then Marvel else
      if first == 'M' && second == 'a' && last == 'y' then MayDay else
      if first == 'S' && second == 'a' && last == 'y' then Salary else
      if first == 'T' && second == 'a' && last == 'n' then Tainan else
      if first == 'W' && second == 'a' && last == 'd' then Wanted else
      Unknown
    case 7 =>
      if first == 'C' && second == 'a' && last == 'p' then CarShop else
      if first == 'D' && second == 'C' && last == 'E' then DcSale else
      if first == 'F' && second == 'A' && last == 'O' then FateGo else
      if first == 'F' && second == 'i' && last == 'e' then Finance else
      if first == 'f' && second == 'o' && last == 'e' then ForSale else
      if first == 'H' && second == 'e' && last == 'y' then HelpBuy else
      if first == 'l' && second == 'e' && last == 'n' then Lesbian else
      if first == 'M' && second == 'a' && last == 'p' then MacShop else
      if first == 'N' && second == 'S' && last == 'h' then NSwitch else
      if first == 'P' && second == 'o' && last == 'n' then PokeMon else
      if first == 'U' && second == 'n' && last == 'n' then Unknown else
      Unknown
    case 8 =>
      if first == 'B' && second == 'a' && last == 'l' then Baseball else
      if first == 'B' && second == 'o' && last == 'l' then BoyGirl else
      if first == 'c' && second == 'o' && last == 'b' then CookClub else
      if first == 'f' && second == 'a' && last == 'd' then FastFood else
      if first == 'G' && second == 'a' && last == 'e' then GameSale else
      if first == 'G' && second == 'e' && last == 'y' then GetMarry else
      if first == 'm' && second == 'a' && last == 'e' then Marriage else
      if first == 'M' && second == 'i' && last == 'y' then Military else
      if first == 'N' && second == 'B' && last == 'm' then NbaFilm else
      if first == 'S' && second == 'o' && last == 'b' then SoftJob else
      if first == 'T' && second == 'e' && last == 'b' then TechJob else
      if first == 'T' && second == 'y' && last == 'n' then TypeMoon else
      if first == 'E' && second == 'A' && last == 's' then EASeries else
      Unknown
    case 9 =>
      if first == 'D' && second == 'M' && last == 'S' then DmmGames else
      if first == 'G' && second == 'o' && last == 'g' then Gossiping else
      if first == 'H' && second == 'e' && last == 'e' then Headphone else
      if first == 'h' && second == 'o' && last == 'e' then HomeSale else
      if first == 'h' && second == 'y' && last == 'l' then HyperMall else
      if first == 'I' && second == 'n' && last == 'e' then Insurance else
      if first == 'K' && second == 'a' && last == 'g' then Kaohsiung else
      if first == 'K' && second == 'o' && last == 'r' then KoreaStar else
      if first == 'K' && second == 'o' && last == 'p' then KoreanPop else
      if first == 'M' && second == 'o' && last == 'y' then MobilePay else
      if first == 'O' && second == 'N' && last == 'E' then OnePiece else
      if first == 'p' && second == 'a' && last == 'e' then PartTime else
      if first == 'P' && second == 'o' && last == 'O' then PokemonGO else
      if first == 'W' && second == 'o' && last == 'k' then WomenTalk else
      Unknown
    case 10 =>
      if first == 'c' && second == 'r' && last == 'd' then CreditCard else
      if first == 'e' && second == '-' && last == 'g' then EShopping else
      if first == 'J' && second == 'a' && last == 'a' then JapanDrama else
      if first == 'K' && second == 'o' && last == 'a' then KoreaDrama else
      if first == 'm' && second == 'e' && last == 't' then Medstudent else
      if first == 'M' && second == 'o' && last == 'm' then MobileComm else
      if first == 'N' && second == 'o' && last == '6' then Nogizaka46 else
      if first == 'Z' && second == 'a' && last == 'y' then Zastrology else
      Unknown
    case 11 =>
      if first == 'A' && second == 'l' && last == 'r' then AllTogether else
      if first == 'B' && second == 'e' && last == 'n' then BeautySalon else
      if first == 'B' && second == 'u' && last == 'r' then BuyTogether else
      if first == 'C' && second == 'h' && last == 'a' then ChinaDrama else
      if first == 'E' && second == '-' && last == 'e' then EAppliance else
      if first == 'E' && second == 'x' && last == 'n' then Examination else
      if first == 'H' && second == 'e' && last == 'e' then Hearthstone else
      if first == 'K' && second == 'e' && last == 'd' then KeyMouPad else
      if first == 'L' && second == 'i' && last == 'y' then LifeIsMoney else
      if first == 'M' && second == 'o' && last == 'e' then MobileGame else
      if first == 'm' && second == 'o' && last == 's' then MobileSales else
      if first == 'M' && second == 'u' && last == 'h' then MuscleBeach else
      if first == 'n' && second == 'b' && last == 'g' then NbShopping else
      if first == 'P' && second == 'a' && last == 'e' then PathOfExile else
      if first == 'P' && second == 'C' && last == 'g' then PcShopping else
      if first == 'P' && second == 'l' && last == 'n' then PlayStation else
      if first == 'S' && second == 't' && last == 'n' then StupidClown else
      if first == 'T' && second == 'a' && last == 'n' then TaichungBun else
      if first == 'T' && second == 'a' && last == 'a' then TaiwanDrama else
      Unknown
    case 12 =>
      if first == 'B' && second == 'a' && last == 'e' then BankService else
      if first == 'b' && second == 'a' && last == 'W' then BasketballTW else
      if first == 'D' && second == 'r' && last == 't' then DramaTicket else
      if first == 'H' && second == 'a' && last == 'e' then HardwareSale else
      if first == 'H' && second == 'a' && last == 's' then HatePolitics else
      if first == 'J' && second == 'a' && last == 'l' then JapanTravel else
      if first == 'j' && second == 'a' && last == 's' then JapanAvGirls else
      if first == 'P' && second == 'a' && last == 'a' then PalmarDrama else
      if first == 'P' && second == 'u' && last == 'n' then PuzzleDragon else
      if first == 'S' && second == 'p' && last == 'y' then SportLottery else
      if first == 'T' && second == 'W' && last == 'n' then TwEntertain else
      Unknown
    case _ => Unknown
  }

  /** CandidateFor finds every variant from its name, so no two variants share a name. */
  lemma CandidateForSerialize(b: BoardName)
    ensures CandidateFor(Serialize(b)) == b
  {
    match b
    case AllTogether => CandidateForAllTogether();
    case BankService => CandidateForBankService();
    case Baseball => CandidateForBaseball();
    case BasketballTW => CandidateForBasketballTW();
    case Beauty => CandidateForBeauty();
    case BeautySalon => CandidateForBeautySalon();
    case Biker => CandidateForBiker();
    case BoyGirl => CandidateForBoyGirl();
    case Brand => CandidateForBrand();
    case BuyTogether => CandidateForBuyTogether();
    case CChat => CandidateForCChat();
    case Car => CandidateForCar();
    case CarShop => CandidateForCarShop();
    case Cat => CandidateForCat();
    case ChinaDrama => CandidateForChinaDrama();
    case CookClub => CandidateForCookClub();
    case CreditCard => CandidateForCreditCard();
    case DcSale => CandidateForDcSale();
    case DmmGames => CandidateForDmmGames();
    case DramaTicket => CandidateForDramaTicket();
    case Dslr => CandidateForDslr();
    case EAppliance => CandidateForEAppliance();
    case EShopping => CandidateForEShopping();
    case Examination => CandidateForExamination();
    case FastFood => CandidateForFastFood();
    case FateGo => CandidateForFateGo();
    case Finance => CandidateForFinance();
    case Food => CandidateForFood();
    case ForSale => CandidateForForSale();
    case GameSale => CandidateForGameSale();
    case Gay => CandidateForGay();
    case Gbf => CandidateForGbf();
    case GetMarry => CandidateForGetMarry();
    case Give => CandidateForGive();
    case Gossiping => CandidateForGossiping();
    case HardwareSale => CandidateForHardwareSale();
    case HatePolitics => CandidateForHatePolitics();
    case Hbl => CandidateForHbl();
    case Headphone => CandidateForHeadphone();
    case Hearthstone => CandidateForHearthstone();
    case HelpBuy => CandidateForHelpBuy();
    case HomeSale => CandidateForHomeSale();
    case HyperMall => CandidateForHyperMall();
    case Insurance => CandidateForInsurance();
    case IOs => CandidateForIOs();
    case Iu => CandidateForIu();
    case JapanTravel => CandidateForJapanTravel();
    case JapanAvGirls => CandidateForJapanAvGirls();
    case JapanDrama => CandidateForJapanDrama();
    case Joke => CandidateForJoke();
    case Kaohsiung => CandidateForKaohsiung();
    case KeyMouPad => CandidateForKeyMouPad();
    case KoreaDrama => CandidateForKoreaDrama();
    case KoreaStar => CandidateForKoreaStar();
    case KoreanPop => CandidateForKoreanPop();
    case Lakers => CandidateForLakers();
    case Lesbian => CandidateForLesbian();
    case LifeIsMoney => CandidateForLifeIsMoney();
    case LoL => CandidateForLoL();
    case MacShop => CandidateForMacShop();
    case MakeUp => CandidateForMakeUp();
    case Marriage => CandidateForMarriage();
    case Marvel => CandidateForMarvel();
    case MayDay => CandidateForMayDay();
    case Medstudent => CandidateForMedstudent();
    case Military => CandidateForMilitary();
    case Mlb => CandidateForMlb();
    case MobileComm => CandidateForMobileComm();
    case MobileGame => CandidateForMobileGame();
    case MobilePay => CandidateForMobilePay();
    case MobileSales => CandidateForMobileSales();
    case Movie => CandidateForMovie();
    case MuscleBeach => CandidateForMuscleBeach();
    case NbShopping => CandidateForNbShopping();
    case Nba => CandidateForNba();
    case NbaFilm => CandidateForNbaFilm();
    case Nogizaka46 => CandidateForNogizaka46();
    case NSwitch => CandidateForNSwitch();
    case OnePiece => CandidateForOnePiece();
    case PalmarDrama => CandidateForPalmarDrama();
    case PartTime => CandidateForPartTime();
    case PathOfExile => CandidateForPathOfExile();
    case PcShopping => CandidateForPcShopping();
    case PlayStation => CandidateForPlayStation();
    case PokeMon => CandidateForPokeMon();
    case PokemonGO => CandidateForPokemonGO();
    case PuzzleDragon => CandidateForPuzzleDragon();
    case Salary => CandidateForSalary();
    case Sex => CandidateForSex();
    case SoftJob => CandidateForSoftJob();
    case SportLottery => CandidateForSportLottery();
    case Steam => CandidateForSteam();
    case Stock => CandidateForStock();
    case StupidClown => CandidateForStupidClown();
    case TaichungBun => CandidateForTaichungBun();
    case Tainan => CandidateForTainan();
    case TaiwanDrama => CandidateForTaiwanDrama();
    case TechJob => CandidateForTechJob();
    case ToS => CandidateForToS();
    case TwEntertain => CandidateForTwEntertain();
    case Twice => CandidateForTwice();
    case TypeMoon => CandidateForTypeMoon();
    case Wanted => CandidateForWanted();
    case Watch => CandidateForWatch();
    case WomenTalk => CandidateForWomenTalk();
    case Wow => CandidateForWow();
    case Zastrology => CandidateForZastrology();
    case EASeries => CandidateForEASeries();
    case Unknown => CandidateForUnknown();
  }

  lemma CandidateForAllTogether() ensures CandidateFor(Serialize(AllTogether)) == AllTogether { assert Serialize(AllTogether) == "AllTogether"; }
  lemma CandidateForBankService() ensures CandidateFor(Serialize(BankService)) == BankService { assert Serialize(BankService) == "Bank_Service"; }
  lemma CandidateForBaseball() ensures CandidateFor(Serialize(Baseball)) == Baseball { assert Serialize(Baseball) == "Baseball"; }
  lemma CandidateForBasketballTW() ensures CandidateFor(Serialize(BasketballTW)) == BasketballTW { assert Serialize(BasketballTW) == "basketballTW"; }
  lemma CandidateForBeauty() ensures CandidateFor(Serialize(Beauty)) == Beauty { assert Serialize(Beauty) == "Beauty"; }
  lemma CandidateForBeautySalon() ensures CandidateFor(Serialize(BeautySalon)) == BeautySalon { assert Serialize(BeautySalon) == "BeautySalon"; }
  lemma CandidateForBiker() ensures CandidateFor(Serialize(Biker)) == Biker { assert Serialize(Biker) == "biker"; }
  lemma CandidateForBoyGirl() ensures CandidateFor(Serialize(BoyGirl)) == BoyGirl { assert Serialize(BoyGirl) == "Boy-Girl"; }
  lemma CandidateForBrand() ensures CandidateFor(Serialize(Brand)) == Brand { assert Serialize(Brand) == "Brand"; }
  lemma CandidateForBuyTogether() ensures CandidateFor(Serialize(BuyTogether)) == BuyTogether { assert Serialize(BuyTogether) == "BuyTogether"; }
  lemma CandidateForCChat() ensures CandidateFor(Serialize(CChat)) == CChat { assert Serialize(CChat) == "C_Chat"; }
  lemma CandidateForCar() ensures CandidateFor(Serialize(Car)) == Car { assert Serialize(Car) == "car"; }
  lemma CandidateForCarShop() ensures CandidateFor(Serialize(CarShop)) == CarShop { assert Serialize(CarShop) == "CarShop"; }
  lemma CandidateForCat() ensures CandidateFor(Serialize(Cat)) == Cat { assert Serialize(Cat) == "cat"; }
  lemma CandidateForChinaDrama() ensures CandidateFor(Serialize(ChinaDrama)) == ChinaDrama { assert Serialize(ChinaDrama) == "China-Drama"; }
  lemma CandidateForCookClub() ensures CandidateFor(Serialize(CookClub)) == CookClub { assert Serialize(CookClub) == "cookclub"; }
  lemma CandidateForCreditCard() ensures CandidateFor(Serialize(CreditCard)) == CreditCard { assert Serialize(CreditCard) == "creditcard"; }
  lemma CandidateForDcSale() ensures CandidateFor(Serialize(DcSale)) == DcSale { assert Serialize(DcSale) == "DC_SALE"; }
  lemma CandidateForDmmGames() ensures CandidateFor(Serialize(DmmGames)) == DmmGames { assert Serialize(DmmGames) == "DMM_GAMES"; }
  lemma CandidateForDramaTicket() ensures CandidateFor(Serialize(DramaTicket)) == DramaTicket { assert Serialize(DramaTicket) == "Drama-Ticket"; }
  lemma CandidateForDslr() ensures CandidateFor(Serialize(Dslr)) == Dslr { assert Serialize(Dslr) == "DSLR"; }
  lemma CandidateForEAppliance() ensures CandidateFor(Serialize(EAppliance)) == EAppliance { assert Serialize(EAppliance) == "E-appliance"; }
  lemma CandidateForEShopping() ensures CandidateFor(Serialize(EShopping)) == EShopping { assert Serialize(EShopping) == "e-shopping"; }
  lemma CandidateForExamination() ensures CandidateFor(Serialize(Examination)) == Examination { assert Serialize(Examination) == "Examination"; }
  lemma CandidateForFastFood() ensures CandidateFor(Serialize(FastFood)) == FastFood { assert Serialize(FastFood) == "fastfood"; }
  lemma CandidateForFateGo() ensures CandidateFor(Serialize(FateGo)) == FateGo { assert Serialize(FateGo) == "FATE_GO"; }
  lemma CandidateForFinance() ensures CandidateFor(Serialize(Finance)) == Finance { assert Serialize(Finance) == "Finance"; }
  lemma CandidateForFood() ensures CandidateFor(Serialize(Food)) == Food { assert Serialize(Food) == "Food"; }
  lemma CandidateForForSale() ensures CandidateFor(Serialize(ForSale)) == ForSale { assert Serialize(ForSale) == "forsale"; }
  lemma CandidateForGameSale() ensures CandidateFor(Serialize(GameSale)) == GameSale { assert Serialize(GameSale) == "Gamesale"; }
  lemma CandidateForGay() ensures CandidateFor(Serialize(Gay)) == Gay { assert Serialize(Gay) == "gay"; }
  lemma CandidateForGbf() ensures CandidateFor(Serialize(Gbf)) == Gbf { assert Serialize(Gbf) == "GBF"; }
  lemma CandidateForGetMarry() ensures CandidateFor(Serialize(GetMarry)) == GetMarry { assert Serialize(GetMarry) == "GetMarry"; }
  lemma CandidateForGive() ensures CandidateFor(Serialize(Give)) == Give { assert Serialize(Give) == "give"; }
  lemma CandidateForGossiping() ensures CandidateFor(Serialize(Gossiping)) == Gossiping { assert Serialize(Gossiping) == "Gossiping"; }
  lemma CandidateForHardwareSale() ensures CandidateFor(Serialize(HardwareSale)) == HardwareSale { assert Serialize(HardwareSale) == "HardwareSale"; }
  lemma CandidateForHatePolitics() ensures CandidateFor(Serialize(HatePolitics)) == HatePolitics { assert Serialize(HatePolitics) == "HatePolitics"; }
  lemma CandidateForHbl() ensures CandidateFor(Serialize(Hbl)) == Hbl { assert Serialize(Hbl) == "HBL"; }
  lemma CandidateForHeadphone() ensures CandidateFor(Serialize(Headphone)) == Headphone { assert Serialize(Headphone) == "Headphone"; }
  lemma CandidateForHearthstone() ensures CandidateFor(Serialize(Hearthstone)) == Hearthstone { assert Serialize(Hearthstone) == "Hearthstone"; }
  lemma CandidateForHelpBuy() ensures CandidateFor(Serialize(HelpBuy)) == HelpBuy { assert Serialize(HelpBuy) == "HelpBuy"; }
  lemma CandidateForHomeSale() ensures CandidateFor(Serialize(HomeSale)) == HomeSale { assert Serialize(HomeSale) == "home-sale"; }
  lemma CandidateForHyperMall() ensures CandidateFor(Serialize(HyperMall)) == HyperMall { assert Serialize(HyperMall) == "hypermall"; }
  lemma CandidateForInsurance() ensures CandidateFor(Serialize(Insurance)) == Insurance { assert Serialize(Insurance) == "Insurance"; }
  lemma CandidateForIOs() ensures CandidateFor(Serialize(IOs)) == IOs { assert Serialize(IOs) == "iOS"; }
  lemma CandidateForIu() ensures CandidateFor(Serialize(Iu)) == Iu { assert Serialize(Iu) == "IU"; }
  lemma CandidateForJapanTravel() ensures CandidateFor(Serialize(JapanTravel)) == JapanTravel { assert Serialize(JapanTravel) == "Japan_Travel"; }
  lemma CandidateForJapanAvGirls() ensures CandidateFor(Serialize(JapanAvGirls)) == JapanAvGirls { assert Serialize(JapanAvGirls) == "japanavgirls"; }
  lemma CandidateForJapanDrama() ensures CandidateFor(Serialize(JapanDrama)) == JapanDrama { assert Serialize(JapanDrama) == "Japandrama"; }
  lemma CandidateForJoke() ensures CandidateFor(Serialize(Joke)) == Joke { assert Serialize(Joke) == "joke"; }
  lemma CandidateForKaohsiung() ensures CandidateFor(Serialize(Kaohsiung)) == Kaohsiung { assert Serialize(Kaohsiung) == "Kaohsiung"; }
  lemma CandidateForKeyMouPad() ensures CandidateFor(Serialize(KeyMouPad)) == KeyMouPad { assert Serialize(KeyMouPad) == "Key_Mou_Pad"; }
  lemma CandidateForKoreaDrama() ensures CandidateFor(Serialize(KoreaDrama)) == KoreaDrama { assert Serialize(KoreaDrama) == "KoreaDrama"; }
  lemma CandidateForKoreaStar() ensures CandidateFor(Serialize(KoreaStar)) == KoreaStar { assert Serialize(KoreaStar) == "KoreaStar"; }
  lemma CandidateForKoreanPop() ensures CandidateFor(Serialize(KoreanPop)) == KoreanPop { assert Serialize(KoreanPop) == "KoreanPop"; }
  lemma CandidateForLakers() ensures CandidateFor(Serialize(Lakers)) == Lakers { assert Serialize(Lakers) == "Lakers"; }
  lemma CandidateForLesbian() ensures CandidateFor(Serialize(Lesbian)) == Lesbian { assert Serialize(Lesbian) == "lesbian"; }
  lemma CandidateForLifeIsMoney() ensures CandidateFor(Serialize(LifeIsMoney)) == LifeIsMoney { assert Serialize(LifeIsMoney) == "Lifeismoney"; }
  lemma CandidateForLoL() ensures CandidateFor(Serialize(LoL)) == LoL { assert Serialize(LoL) == "LoL"; }
  lemma CandidateForMacShop() ensures CandidateFor(Serialize(MacShop)) == MacShop { assert Serialize(MacShop) == "MacShop"; }
  lemma CandidateForMakeUp() ensures CandidateFor(Serialize(MakeUp)) == MakeUp { assert Serialize(MakeUp) == "MakeUp"; }
  lemma CandidateForMarriage() ensures CandidateFor(Serialize(Marriage)) == Marriage { assert Serialize(Marriage) == "marriage"; }
  lemma CandidateForMarvel() ensures CandidateFor(Serialize(Marvel)) == Marvel { assert Serialize(Marvel) == "marvel"; }
  lemma CandidateForMayDay() ensures CandidateFor(Serialize(MayDay)) == MayDay { assert Serialize(MayDay) == "MayDay"; }
  lemma CandidateForMedstudent() ensures CandidateFor(Serialize(Medstudent)) == Medstudent { assert Serialize(Medstudent) == "medstudent"; }
  lemma CandidateForMilitary() ensures CandidateFor(Serialize(Military)) == Military { assert Serialize(Military) == "Military"; }
  lemma CandidateForMlb() ensures CandidateFor(Serialize(Mlb)) == Mlb { assert Serialize(Mlb) == "MLB"; }
  lemma CandidateForMobileComm() ensures CandidateFor(Serialize(MobileComm)) == MobileComm { assert Serialize(MobileComm) == "MobileComm"; }
  lemma CandidateForMobileGame() ensures CandidateFor(Serialize(MobileGame)) == MobileGame { assert Serialize(MobileGame) == "Mobile-game"; }
  lemma CandidateForMobilePay() ensures CandidateFor(Serialize(MobilePay)) == MobilePay { assert Serialize(MobilePay) == "MobilePay"; }
  lemma CandidateForMobileSales() ensures CandidateFor(Serialize(MobileSales)) == MobileSales { assert Serialize(MobileSales) == "mobilesales"; }
  lemma CandidateForMovie() ensures CandidateFor(Serialize(Movie)) == Movie { assert Serialize(Movie) == "movie"; }
  lemma CandidateForMuscleBeach() ensures CandidateFor(Serialize(MuscleBeach)) == MuscleBeach { assert Serialize(MuscleBeach) == "MuscleBeach"; }
  lemma CandidateForNbShopping() ensures CandidateFor(Serialize(NbShopping)) == NbShopping { assert Serialize(NbShopping) == "nb-shopping"; }
  lemma CandidateForNba() ensures CandidateFor(Serialize(Nba)) == Nba { assert Serialize(Nba) == "NBA"; }
  lemma CandidateForNbaFilm() ensures CandidateFor(Serialize(NbaFilm)) == NbaFilm { assert Serialize(NbaFilm) == "NBA_Film"; }
  lemma CandidateForNogizaka46() ensures CandidateFor(Serialize(Nogizaka46)) == Nogizaka46 { assert Serialize(Nogizaka46) == "Nogizaka46"; }
  lemma CandidateForNSwitch() ensures CandidateFor(Serialize(NSwitch)) == NSwitch { assert Serialize(NSwitch) == "NSwitch"; }
  lemma CandidateForOnePiece() ensures CandidateFor(Serialize(OnePiece)) == OnePiece { assert Serialize(OnePiece) == "ONE_PIECE"; }
  lemma CandidateForPalmarDrama() ensures CandidateFor(Serialize(PalmarDrama)) == PalmarDrama { assert Serialize(PalmarDrama) == "Palmar_Drama"; }
  lemma CandidateForPartTime() ensures CandidateFor(Serialize(PartTime)) == PartTime { assert Serialize(PartTime) == "part-time"; }
  lemma CandidateForPathOfExile() ensures CandidateFor(Serialize(PathOfExile)) == PathOfExile { assert Serialize(PathOfExile) == "PathofExile"; }
  lemma CandidateForPcShopping() ensures CandidateFor(Serialize(PcShopping)) == PcShopping { assert Serialize(PcShopping) == "PC_Shopping"; }
  lemma CandidateForPlayStation() ensures CandidateFor(Serialize(PlayStation)) == PlayStation { assert Serialize(PlayStation) == "PlayStation"; }
  lemma CandidateForPokeMon() ensures CandidateFor(Serialize(PokeMon)) == PokeMon { assert Serialize(PokeMon) == "PokeMon"; }
  lemma CandidateForPokemonGO() ensures CandidateFor(Serialize(PokemonGO)) == PokemonGO { assert Serialize(PokemonGO) == "PokemonGO"; }
  lemma CandidateForPuzzleDragon() ensures CandidateFor(Serialize(PuzzleDragon)) == PuzzleDragon { assert Serialize(PuzzleDragon) == "PuzzleDragon"; }
  lemma CandidateForSalary() ensures CandidateFor(Serialize(Salary)) == Salary { assert Serialize(Salary) == "Salary"; }
  lemma CandidateForSex() ensures CandidateFor(Serialize(Sex)) == Sex { assert Serialize(Sex) == "sex"; }
  lemma CandidateForSoftJob() ensures CandidateFor(Serialize(SoftJob)) == SoftJob { assert Serialize(SoftJob) == "Soft_Job"; }
  lemma CandidateForSportLottery() ensures CandidateFor(Serialize(SportLottery)) == SportLottery { assert Serialize(SportLottery) == "SportLottery"; }
  lemma CandidateForSteam() ensures CandidateFor(Serialize(Steam)) == Steam { assert Serialize(Steam) == "Steam"; }
  lemma CandidateForStock() ensures CandidateFor(Serialize(Stock)) == Stock { assert Serialize(Stock) == "Stock"; }
  lemma CandidateForStupidClown() ensures CandidateFor(Serialize(StupidClown)) == StupidClown { assert Serialize(StupidClown) == "StupidClown"; }
  lemma CandidateForTaichungBun() ensures CandidateFor(Serialize(TaichungBun)) == TaichungBun { assert Serialize(TaichungBun) == "TaichungBun"; }
  lemma CandidateForTainan() ensures CandidateFor(Serialize(Tainan)) == Tainan { assert Serialize(Tainan) == "Tainan"; }
  lemma CandidateForTaiwanDrama() ensures CandidateFor(Serialize(TaiwanDrama)) == TaiwanDrama { assert Serialize(TaiwanDrama) == "TaiwanDrama"; }
  lemma CandidateForTechJob() ensures CandidateFor(Serialize(TechJob)) == TechJob { assert Serialize(TechJob) == "Tech_Job"; }
  lemma CandidateForToS() ensures CandidateFor(Serialize(ToS)) == ToS { assert Serialize(ToS) == "ToS"; }
  lemma CandidateForTwEntertain() ensures CandidateFor(Serialize(TwEntertain)) == TwEntertain { assert Serialize(TwEntertain) == "TW_Entertain"; }
  lemma CandidateForTwice() ensures CandidateFor(Serialize(Twice)) == Twice { assert Serialize(Twice) == "TWICE"; }
  lemma CandidateForTypeMoon() ensures CandidateFor(Serialize(TypeMoon)) == TypeMoon { assert Serialize(TypeMoon) == "TypeMoon"; }
  lemma CandidateForWanted() ensures CandidateFor(Serialize(Wanted)) == Wanted { assert Serialize(Wanted) == "Wanted"; }
  lemma CandidateForWatch() ensures CandidateFor(Serialize(Watch)) == Watch { assert Serialize(Watch) == "watch"; }
  lemma CandidateForWomenTalk() ensures CandidateFor(Serialize(WomenTalk)) == WomenTalk { assert Serialize(WomenTalk) == "WomenTalk"; }
  lemma CandidateForWow() ensures CandidateFor(Serialize(Wow)) == Wow { assert Serialize(Wow) == "WOW"; }
  lemma CandidateForZastrology() ensures CandidateFor(Serialize(Zastrology)) == Zastrology { assert Serialize(Zastrology) == "Zastrology"; }
  lemma CandidateForEASeries() ensures CandidateFor(Serialize(EASeries)) == EASeries { assert Serialize(EASeries) == "EAseries"; }
  lemma CandidateForUnknown() ensures CandidateFor(Serialize(Unknown)) == Unknown { assert Serialize(Unknown) == "Unknown"; }


  /**
   * `BoardName::from_str`: the variant whose name is exactly `s`, if any. Looking up the single
   * candidate and comparing its name is the same as comparing `s` with every name, because no
   * other variant can have that name (ParseBoardNameExact).
   */
  function ParseBoardName(s: string): (r: Option<BoardName>)
    ensures r.Some? ==> Serialize(r.value) == s
  {
    var b := CandidateFor(s);
    if Serialize(b) == s then Some(b) else None
  }

  /** Parsing a board name succeeds exactly on the serialized names, and yields their variant. */
  lemma ParseBoardNameExact(s: string, b: BoardName)
    ensures ParseBoardName(s) == Some(b) <==> Serialize(b) == s
  {
    if Serialize(b) == s {
      CandidateForSerialize(b);
    }
  }

  /** Rendering a board and parsing the result gives back the same board. */
  lemma BoardRoundTrip(b: BoardName)
    ensures ParseBoardName(Serialize(b)) == Some(b)
  {
    ParseBoardNameExact(Serialize(b), b);
  }

  /** No two boards are rendered alike. */
  lemma SerializeInjective(b1: BoardName, b2: BoardName)
    ensures Serialize(b1) == Serialize(b2) ==> b1 == b2
  {
    if Serialize(b1) == Serialize(b2) {
      CandidateForSerialize(b1);
      CandidateForSerialize(b2);
    }
  }

  /** `Unknown` is a board like the others: it renders as "Unknown" and parses back. */
  lemma UnknownIsABoard()
    ensures Serialize(Unknown) == "Unknown" && ParseBoardName("Unknown") == Some(Unknown)
  {
    BoardRoundTrip(Unknown);
  }

  /** A renamed board: `SoftJob` is known on the site as "Soft_Job". */
  lemma SoftJobName()
    ensures Serialize(SoftJob) == "Soft_Job" && ParseBoardName("Soft_Job") == Some(SoftJob)
  {
    BoardRoundTrip(SoftJob);
  }

  /** A board named after its variant. */
  lemma GossipingName()
    ensures Serialize(Gossiping) == "Gossiping" && ParseBoardName("Gossiping") == Some(Gossiping)
  {
    BoardRoundTrip(Gossiping);
  }

  /** Variant names are not board names when the board is renamed. */
  lemma SoftJobVariantNameUnknown()
    ensures ParseBoardName("SoftJob") == None
  {
    assert CandidateFor("SoftJob") == Unknown;
  }

  /**
   * The table as compiled: the attribute on `Biker` lacks its `=`, is not understood as a
   * `serialize` directive, and the variant keeps its own name.
   */
  function SerializeAsWritten(b: BoardName): (r: string)
    ensures r == Serialize(b) <==> b != Biker
  {
    if b == Biker then "Biker" else Serialize(b)
  }

  /** `from_str` over the table as compiled. */
  function ParseBoardNameAsWritten(s: string): (r: Option<BoardName>)
    ensures r.Some? ==> SerializeAsWritten(r.value) == s
  {
    if s == "Biker" then Some(Biker)
    else if s == "biker" then None
    else ParseBoardName(s)
  }

  /** No board of the corrected table is called "Biker". */
  lemma BikerVariantNameUnknown()
    ensures ParseBoardName("Biker") == None
  {
    var name := "Biker";
    assert |name| == 5 && name[0] == 'B' && name[1] == 'i' && name[4] == 'r';
    assert CandidateFor(name) == Unknown;
  }

  /** The compiled table is still an exact, invertible table ... */
  lemma ParseBoardNameAsWrittenExact(s: string, b: BoardName)
    ensures ParseBoardNameAsWritten(s) == Some(b) <==> SerializeAsWritten(b) == s
  {
    if s == "Biker" {
      AsWrittenExactOnBiker(b);
    } else if s == "biker" {
      AsWrittenExactOnLowerBiker(b);
    } else {
      ParseBoardNameExact(s, b);
    }
  }

  /** Only `Biker` answers to "Biker" in the compiled table. */
  lemma AsWrittenExactOnBiker(b: BoardName)
    ensures SerializeAsWritten(b) == "Biker" <==> b == Biker
  {
    ParseBoardNameExact("Biker", b);
    BikerVariantNameUnknown();
  }

  /** Nothing answers to "biker" in the compiled table. */
  lemma AsWrittenExactOnLowerBiker(b: BoardName)
    ensures SerializeAsWritten(b) != "biker"
  {
    ParseBoardNameExact("biker", b);
    BikerMissingAsWritten();
  }

  /** ... but it does not know the board "biker" at all, while the corrected table does. */
  lemma BikerMissingAsWritten()
    ensures ParseBoardNameAsWritten("biker") == None
    ensures ParseBoardName("biker") == Some(Biker)
  {
    BoardRoundTrip(Biker);
  }
}
